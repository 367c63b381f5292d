/** fdt_scan_helper and filter_compat: the walk over the words, and the filter that overwrites them on the way. */
module FdtScan {
  import opened Words
  import opened FdtStrings
  import opened FdtTree

  /**
   * The callbacks and their state.  Every call is logged; the counters are those of struct compat_scan and are
   * used only when the scan filters (filter_compat installs no done callback, so there that call is a no-op).
   */
  class CompatScan {
    const query: Query
    const filtering: bool
    var depth: nat
    var kill: int
    var events: seq<Event>

    constructor (query: Query, filtering: bool)
      ensures this.query == query && this.filtering == filtering
      ensures depth == 0 && kill == NO_KILL && events == []
    {
      this.query := query;
      this.filtering := filtering;
      depth := 0;
      kill := NO_KILL;
      events := [];
    }

    method Open(name: seq<u32>)
      modifies this
      ensures depth == old(depth) + 1 && kill == old(kill) && events == old(events) + [Opened(name)]
    {
      depth := depth + 1;
      events := events + [Opened(name)];
    }

    method Prop(p: PropData)
      requires IsProp(p) && NoNul(query.compat)
      modifies this
      ensures depth == old(depth) && events == old(events) + [Property(p)]
      ensures kill == if filtering && Lists(query, p) && old(depth) < old(kill) then old(depth) else old(kill)
    {
      events := events + [Property(p)];
      if filtering && p.nameOffset <= |query.strings| {
        var isCompatible := StrEq(query.strings, p.nameOffset, COMPATIBLE);
        if isCompatible {
          var index := StringListIndex(ValueBytes(p), query.compat);
          if 0 <= index && depth < kill {
            kill := depth;
          }
        }
      }
    }

    method Done()
      modifies this`events
      ensures events == old(events) + [PropsDone]
    {
      events := events + [PropsDone];
    }

    /** Whether the node that is closed is to be deleted. */
    method Close(name: seq<u32>) returns (delete: bool)
      requires depth > 0
      modifies this
      ensures depth == old(depth) - 1 && events == old(events) + [Closed(name)]
      ensures delete <==> filtering && old(kill) == old(depth)
      ensures kill == if delete then NO_KILL else old(kill)
    {
      events := events + [Closed(name)];
      delete := filtering && kill == depth;
      depth := depth - 1;
      if delete {
        kill := NO_KILL;
      }
    }
  }

  /** What a scan does to a level: nothing, unless it filters. */
  function After(filtering: bool, q: Query, t: Items, depth: nat, kill: int): (Items, int) {
    if filtering then Filtered(q, t, depth, kill) else (t, kill)
  }

  /** What it does to one node. */
  function NodeAfter(filtering: bool, q: Query, name: seq<u32>, body: Items, depth: nat, kill: int): (seq<u32>, int) {
    var b := After(filtering, q, body, depth + 1, kill);
    if filtering && b.1 == depth + 1 then (NopWords(NodeSize(name, b.0)), NO_KILL)
    else ([FDT_BEGIN_NODE] + name + Encode(b.0, FDT_END_NODE), b.1)
  }

  lemma AfterNode(filtering: bool, q: Query, name: seq<u32>, body: Items, depth: nat, kill: int)
    ensures
      var b, n := After(filtering, q, body, depth + 1, kill), NodeAfter(filtering, q, name, body, depth, kill);
      && |Encode(b.0, FDT_END_NODE)| == |Encode(body, FDT_END_NODE)|
      && n == if filtering && b.1 == depth + 1 then (NopWords(NodeSize(name, body)), NO_KILL)
              else ([FDT_BEGIN_NODE] + name + Encode(b.0, FDT_END_NODE), b.1)
  {
    hide Encode, Filtered;
    FilteredSize(q, body, depth + 1, kill, FDT_END_NODE);
  }

  lemma CallsInOrder(e: seq<Event>, o: seq<Event>, b: seq<Event>, c: seq<Event>)
    ensures e + o + b + c == e + (o + b + c)
  {
  }

  lemma AfterChild(filtering: bool, q: Query, name: seq<u32>, body: Items, rest: Items, depth: nat, kill: int, closing: u32)
    ensures
      var n := NodeAfter(filtering, q, name, body, depth, kill);
      var all := After(filtering, q, Child(name, body, rest), depth, kill);
      var r := After(filtering, q, rest, depth, n.1);
      && all.1 == r.1
      && Encode(all.0, closing) == n.0 + Encode(r.0, closing)
      && |n.0| == NodeSize(name, body)
  {
    FilteredSize(q, body, depth + 1, kill, FDT_END_NODE);
    var b := Filtered(q, body, depth + 1, kill);
    EncodeNops(NodeSize(name, b.0), Filtered(q, rest, depth, NO_KILL).0, closing);
  }

  /** strlen(child.name), the name starting at word p. */
  method NameLength(a: array<u32>, p: nat, ghost name: seq<u32>) returns (n: nat)
    requires IsName(name) && p + |name| <= a.Length && a[p..p + |name|] == name
    ensures n / 4 == |name| - 1
  {
    n := 0;
    ghost var z := NulIn(name[|name| - 1]);
    assert a[p + |name| - 1] == name[|name| - 1];
    while ByteOf(a[p + n / 4], n % 4) != 0
      invariant n <= 4 * (|name| - 1) + z
      decreases 4 * |name| - n
    {
      assert a[p + n / 4] == name[n / 4];
      n := n + 1;
    }
    assert a[p + n / 4] == name[n / 4];
    assert HasNul(name[n / 4]);
  }

  lemma NulIn(w: u32) returns (z: nat)
    requires HasNul(w)
    ensures z < 4 && ByteOf(w, z) == 0
  {
    z := if ByteOf(w, 0) == 0 then 0 else if ByteOf(w, 1) == 0 then 1 else if ByteOf(w, 2) == 0 then 2 else 3;
  }

  /** Line 74: the words from lex up to next become NOPs. */
  method FillNops(a: array<u32>, lex: nat, next: nat)
    requires lex <= next <= a.Length
    modifies a
    ensures a[..] == old(a[..lex]) + NopWords(next - lex) + old(a[next..])
  {
    var i := lex;
    while i != next
      invariant lex <= i <= next
      invariant a[..lex] == old(a[..lex]) && a[next..] == old(a[next..])
      invariant forall j :: lex <= j < i ==> a[j] == FDT_NOP
      decreases next - i
    {
      a[i] := FDT_NOP;
      i := i + 1;
    }
    assert a[lex..next] == NopWords(next - lex);
    assert a[..] == a[..lex] + a[lex..next] + a[next..];
  }

  // ----- one token at a time -----

  /**
   * The scan stands at word lex, before the items rest: the words ahead are theirs, and once they are scanned
   * the block will be goal.
   */
  ghost predicate Standing(a: seq<u32>, lex: nat, rest: Items, closing: u32, tail: seq<u32>,
                           filtering: bool, q: Query, depth: nat, kill: int, goal: seq<u32>) {
    && lex <= |a|
    && a[lex..] == Encode(rest, closing) + tail
    && goal == a[..lex] + Encode(After(filtering, q, rest, depth, kill).0, closing) + tail
  }

  lemma Token(rest: Items, closing: u32)
    requires Closing(closing)
    ensures
      var w := Encode(rest, closing)[0];
      && (w == FDT_NOP <==> rest.Nop?) && (w == FDT_PROP <==> rest.Prop?) && (w == FDT_BEGIN_NODE <==> rest.Child?)
      && (rest.Last? ==> w == closing)
  {
  }

  lemma PastNop(a: seq<u32>, lex: nat, rest: Items, closing: u32, tail: seq<u32>,
                filtering: bool, q: Query, depth: nat, kill: int, goal: seq<u32>)
    requires rest.Nop? && Standing(a, lex, rest, closing, tail, filtering, q, depth, kill, goal)
    ensures Standing(a, lex + 1, rest.rest, closing, tail, filtering, q, depth, kill, goal)
    ensures After(filtering, q, rest, depth, kill).1 == After(filtering, q, rest.rest, depth, kill).1
  {
    assert a[lex + 1..] == a[lex..][1..];
    assert a[..lex + 1] == a[..lex] + [FDT_NOP];
  }

  function KillAfter(filtering: bool, q: Query, p: PropData, depth: nat, kill: int): int {
    if filtering && Lists(q, p) && depth < kill then depth else kill
  }

  lemma PastProp(a: seq<u32>, lex: nat, rest: Items, closing: u32, tail: seq<u32>,
                 filtering: bool, q: Query, depth: nat, kill: int, goal: seq<u32>)
    requires rest.Prop? && Standing(a, lex, rest, closing, tail, filtering, q, depth, kill, goal)
    ensures
      var kill' := KillAfter(filtering, q, rest.prop, depth, kill);
      && Standing(a, lex + 3 + |rest.prop.value|, rest.rest, closing, tail, filtering, q, depth, kill', goal)
      && After(filtering, q, rest, depth, kill).1 == After(filtering, q, rest.rest, depth, kill').1
  {
    hide Lists;
    var w := [FDT_PROP, rest.prop.len, rest.prop.nameOffset] + rest.prop.value;
    assert a[lex..] == w + (Encode(rest.rest, closing) + tail);
    assert a[lex + |w|..] == a[lex..][|w|..];
    assert a[lex..lex + |w|] == w;
    assert a[..lex + |w|] == a[..lex] + w;
  }

  lemma PastChild(was: seq<u32>, a: seq<u32>, lex: nat, rest: Items, closing: u32, tail: seq<u32>,
                  filtering: bool, q: Query, depth: nat, kill: int, goal: seq<u32>)
    requires rest.Child? && Standing(was, lex, rest, closing, tail, filtering, q, depth, kill, goal)
    requires a == was[..lex] + NodeAfter(filtering, q, rest.name, rest.body, depth, kill).0 + (Encode(rest.rest, closing) + tail)
    ensures
      var kill' := NodeAfter(filtering, q, rest.name, rest.body, depth, kill).1;
      && Standing(a, lex + NodeSize(rest.name, rest.body), rest.rest, closing, tail, filtering, q, depth, kill', goal)
      && After(filtering, q, rest, depth, kill).1 == After(filtering, q, rest.rest, depth, kill').1
  {
    AfterChild(filtering, q, rest.name, rest.body, rest.rest, depth, kill, closing);
    hide NodeAfter, After, NodeSize;
    var n := NodeAfter(filtering, q, rest.name, rest.body, depth, kill);
    assert a[..lex + |n.0|] == was[..lex] + n.0;
    assert a[lex + |n.0|..] == Encode(rest.rest, closing) + tail;
  }

  lemma ChildWords(a: seq<u32>, lex: nat, rest: Items, closing: u32, tail: seq<u32>)
    requires rest.Child? && lex <= |a| && a[lex..] == Encode(rest, closing) + tail
    ensures a[lex..] == [FDT_BEGIN_NODE] + rest.name + Encode(rest.body, FDT_END_NODE) + (Encode(rest.rest, closing) + tail)
    ensures |Encode(rest, closing)| == NodeSize(rest.name, rest.body) + |Encode(rest.rest, closing)|
  {
    var w := [FDT_BEGIN_NODE] + rest.name + Encode(rest.body, FDT_END_NODE);
    assert Encode(rest, closing) == w + Encode(rest.rest, closing);
    hide Encode;
    Regroup(w, Encode(rest.rest, closing), tail);
  }

  lemma Regroup(x: seq<u32>, y: seq<u32>, z: seq<u32>)
    ensures (x + y) + z == x + (y + z)
  {
  }

  lemma PropWords(a: seq<u32>, lex: nat, rest: Items, closing: u32, tail: seq<u32>)
    requires rest.Prop? && lex <= |a| && a[lex..] == Encode(rest, closing) + tail
    ensures a[lex..] == [FDT_PROP, rest.prop.len, rest.prop.nameOffset] + rest.prop.value + (Encode(rest.rest, closing) + tail)
    ensures |Encode(rest, closing)| == 3 + |rest.prop.value| + |Encode(rest.rest, closing)|
  {
    var w := [FDT_PROP, rest.prop.len, rest.prop.nameOffset] + rest.prop.value;
    assert Encode(rest, closing) == w + Encode(rest.rest, closing);
    hide Encode;
    Regroup(w, Encode(rest.rest, closing), tail);
  }

  /** Lines 53 to 60: a property is read and reported. */
  method ScanProp(a: array<u32>, lex: nat, scan: CompatScan, ghost p: PropData, ghost more: seq<u32>) returns (next: nat)
    requires IsProp(p) && NoNul(scan.query.compat)
    requires lex <= a.Length && a[lex..] == [FDT_PROP, p.len, p.nameOffset] + p.value + more
    modifies scan
    ensures next == lex + 3 + |p.value|
    ensures scan.depth == old(scan.depth) && scan.events == old(scan.events) + [Property(p)]
    ensures scan.kill == KillAfter(scan.filtering, scan.query, p, old(scan.depth), old(scan.kill))
  {
    hide Lists;
    ghost var words := a[lex..];
    assert words[1] == a[lex + 1] && words[2] == a[lex + 2];
    var len := a[lex + 1];
    next := lex + 3 + (len + 3) / 4;
    assert a[lex + 3..next] == words[3..3 + (len + 3) / 4] == p.value;
    scan.Prop(PropData(a[lex + 2], len, a[lex + 3..next]));
  }

  /** Lines 66 to 72: a subnode is opened and scanned. */
  method ScanBody(a: array<u32>, lex: nat, scan: CompatScan, ghost name: seq<u32>, ghost body: Items, ghost more: seq<u32>)
    returns (childName: seq<u32>, next: nat)
    requires IsName(name) && WellFormed(body, false) && NoNul(scan.query.compat)
    requires lex <= a.Length && a[lex..] == [FDT_BEGIN_NODE] + name + Encode(body, FDT_END_NODE) + more
    modifies a, scan
    ensures childName == name && next == lex + NodeSize(name, body) && next <= a.Length
    ensures scan.depth == old(scan.depth) + 1
    ensures scan.events == old(scan.events) + [Opened(name)] + Trace(body, true, false)
    ensures
      var b := After(scan.filtering, scan.query, body, old(scan.depth) + 1, old(scan.kill));
      scan.kill == b.1 && a[..] == old(a[..lex]) + [FDT_BEGIN_NODE] + name + Encode(b.0, FDT_END_NODE) + more
    decreases body, 2
  {
    hide ByteOf, HasNul, Trace, After, Encode, WellFormed, IsName;
    AfterNode(scan.filtering, scan.query, name, body, scan.depth, scan.kill);
    NodeWords(a[..], lex, name, Encode(body, FDT_END_NODE), more);
    var n := NameLength(a, lex + 1, name);
    childName := a[lex + 1..lex + 2 + n / 4];
    scan.Open(childName);
    next := ScanHelper(a, lex + 2 + n / 4, true, scan, body, FDT_END_NODE, more);
  }

  /** Lines 66 to 75: a subnode is opened, scanned, closed, and overwritten if the callback says so. */
  method ScanNode(a: array<u32>, lex: nat, scan: CompatScan, ghost name: seq<u32>, ghost body: Items, ghost more: seq<u32>)
    returns (next: nat)
    requires IsName(name) && WellFormed(body, false) && NoNul(scan.query.compat)
    requires lex <= a.Length && a[lex..] == [FDT_BEGIN_NODE] + name + Encode(body, FDT_END_NODE) + more
    modifies a, scan
    ensures next == lex + NodeSize(name, body) && next <= a.Length
    ensures scan.depth == old(scan.depth)
    ensures scan.events == old(scan.events) + ([Opened(name)] + Trace(body, true, false) + [Closed(name)])
    ensures
      var n := NodeAfter(scan.filtering, scan.query, name, body, old(scan.depth), old(scan.kill));
      scan.kill == n.1 && a[..] == old(a[..lex]) + n.0 + more
    decreases body, 3
  {
    hide Trace, After, Encode, WellFormed, IsName, NodeAfter, NoNul;
    ghost var before, b := a[..lex], After(scan.filtering, scan.query, body, scan.depth + 1, scan.kill);
    AfterNode(scan.filtering, scan.query, name, body, scan.depth, scan.kill);
    CallsInOrder(scan.events, [Opened(name)], Trace(body, true, false), [Closed(name)]);
    var childName;
    childName, next := ScanBody(a, lex, scan, name, body, more);
    NodeDone(a[..], before, name, Encode(b.0, FDT_END_NODE), more, lex, next);
    var delete := scan.Close(childName);
    if delete {
      FillNops(a, lex, next);
    }
  }

  /** The parts of a subnode's words. */
  lemma NodeWords(a: seq<u32>, lex: nat, name: seq<u32>, body: seq<u32>, more: seq<u32>)
    requires lex <= |a| && a[lex..] == [FDT_BEGIN_NODE] + name + body + more
    ensures lex + 1 + |name| <= |a| && a[lex + 1..lex + 1 + |name|] == name
    ensures a[lex + 1 + |name|..] == body + more
    ensures a[..lex + 1 + |name|] == a[..lex] + [FDT_BEGIN_NODE] + name
  {
    var w := [FDT_BEGIN_NODE] + name;
    assert a[lex..] == w + (body + more);
    assert a[lex..lex + |w|] == w;
    assert a[lex + |w|..] == a[lex..][|w|..];
    assert a[lex + 1..lex + 1 + |name|] == w[1..];
  }

  lemma NodeDone(a: seq<u32>, before: seq<u32>, name: seq<u32>, body: seq<u32>, more: seq<u32>, lex: nat, next: nat)
    requires a == before + [FDT_BEGIN_NODE] + name + body + more
    requires lex == |before| && next == lex + 1 + |name| + |body|
    ensures a[..lex] == before && a[next..] == more
    ensures a == before + ([FDT_BEGIN_NODE] + name + body) + more
  {
  }

  lemma Start(a: seq<u32>, start: nat, t: Items, closing: u32, tail: seq<u32>,
              filtering: bool, q: Query, depth: nat, kill: int, goal: seq<u32>)
    requires start <= |a| && a[start..] == Encode(t, closing) + tail
    requires goal == a[..start] + Encode(After(filtering, q, t, depth, kill).0, closing) + tail
    ensures Standing(a, start, t, closing, tail, filtering, q, depth, kill, goal)
  {
  }

  lemma Here(a: seq<u32>, lex: nat, rest: Items, closing: u32, tail: seq<u32>,
             filtering: bool, q: Query, depth: nat, kill: int, goal: seq<u32>)
    requires Standing(a, lex, rest, closing, tail, filtering, q, depth, kill, goal)
    ensures lex < |a| && a[lex] == Encode(rest, closing)[0] && a[lex..] == Encode(rest, closing) + tail
    ensures lex + |Encode(rest, closing)| + |tail| == |a|
  {
    assert a[lex] == a[lex..][0];
  }

  lemma Next(rest: Items, last: bool)
    requires WellFormed(rest, last)
    ensures rest.Nop? ==> WellFormed(rest.rest, last)
    ensures rest.Prop? ==> !last && IsProp(rest.prop) && WellFormed(rest.rest, false)
    ensures rest.Child? ==> IsName(rest.name) && WellFormed(rest.body, false) && WellFormed(rest.rest, true)
  {
  }

  /** The calls still to be made, one token further on. */
  lemma NextCalls(rest: Items, hasNode: bool, last: bool, done: seq<Event>, all: seq<Event>)
    requires WellFormed(rest, last) && done + Trace(rest, hasNode, last) == all
    ensures rest.Last? ==> done + DoneOnce(hasNode, last) == all
    ensures rest.Nop? ==> done + Trace(rest.rest, hasNode, last) == all
    ensures rest.Prop? ==> done + [Property(rest.prop)] + Trace(rest.rest, hasNode, last) == all
    ensures rest.Child? ==>
              done + DoneOnce(hasNode, last) + ([Opened(rest.name)] + Trace(rest.body, true, false) + [Closed(rest.name)])
              + Trace(rest.rest, hasNode, true) == all
  {
    if rest.Child? {
      RegroupCalls(done, DoneOnce(hasNode, last), [Opened(rest.name)], Trace(rest.body, true, false), [Closed(rest.name)],
                   Trace(rest.rest, hasNode, true));
    } else if rest.Prop? {
      assert done + ([Property(rest.prop)] + Trace(rest.rest, hasNode, last))
             == done + [Property(rest.prop)] + Trace(rest.rest, hasNode, last);
    }
    hide DoneOnce;
  }

  lemma RegroupCalls(e: seq<Event>, d: seq<Event>, o: seq<Event>, b: seq<Event>, c: seq<Event>, r: seq<Event>)
    ensures e + (d + (o + b + c + r)) == e + d + (o + b + c) + r
  {
  }

  lemma AtLast(a: seq<u32>, lex: nat, rest: Items, closing: u32, tail: seq<u32>,
               filtering: bool, q: Query, depth: nat, kill: int, goal: seq<u32>)
    requires rest.Last? && Standing(a, lex, rest, closing, tail, filtering, q, depth, kill, goal)
    ensures a == goal && After(filtering, q, rest, depth, kill).1 == kill && |Encode(rest, closing)| == 1
  {
    assert a == a[..lex] + a[lex..];
  }

  /** fdt_scan_helper on the words from start on, which encode the level t; what follows them is not touched. */
  method ScanHelper(a: array<u32>, start: nat, hasNode: bool, scan: CompatScan,
                    ghost t: Items, ghost closing: u32, ghost tail: seq<u32>)
    returns (next: nat)
    requires WellFormed(t, false) && Closing(closing) && NoNul(scan.query.compat)
    requires start <= a.Length && a[start..] == Encode(t, closing) + tail
    modifies a, scan
    ensures next == start + |Encode(t, closing)| - (if closing == FDT_END_NODE then 0 else 1)
    ensures scan.depth == old(scan.depth)
    ensures scan.events == old(scan.events) + Trace(t, hasNode, false)
    ensures
      var after := After(scan.filtering, scan.query, t, old(scan.depth), old(scan.kill));
      scan.kill == after.1 && a[..] == old(a[..start]) + Encode(after.0, closing) + tail
    decreases t, 1
  {
    hide Filtered, Standing, WellFormed, KillAfter, NodeAfter, NodeSize, Trace, After, Encode, IsName, IsProp;
    var lex: nat, last: bool := start, false;
    ghost var rest := t;
    ghost var filtering, q, depth := scan.filtering, scan.query, scan.depth;
    ghost var after := After(filtering, q, t, depth, scan.kill);
    ghost var goal := a[..start] + Encode(after.0, closing) + tail;
    ghost var events := scan.events + Trace(t, hasNode, false);
    Start(a[..], start, t, closing, tail, filtering, q, depth, scan.kill, goal);
    assert start + |Encode(t, closing)| + |tail| == a.Length;
    while true
      invariant WellFormed(rest, last) && scan.depth == depth
      invariant Standing(a[..], lex, rest, closing, tail, filtering, q, depth, scan.kill, goal)
      invariant After(filtering, q, rest, depth, scan.kill).1 == after.1
      invariant scan.events + Trace(rest, hasNode, last) == events
      invariant rest == t || rest < t
      decreases rest
    {
      Here(a[..], lex, rest, closing, tail, filtering, q, depth, scan.kill, goal);
      Token(rest, closing);
      Next(rest, last);
      NextCalls(rest, hasNode, last, scan.events, events);
      var token := a[lex];
      if token == FDT_NOP {
        PastNop(a[..], lex, rest, closing, tail, filtering, q, depth, scan.kill, goal);
        lex := lex + 1;
        rest := rest.rest;
      } else if token == FDT_PROP {
        PastProp(a[..], lex, rest, closing, tail, filtering, q, depth, scan.kill, goal);
        PropWords(a[..], lex, rest, closing, tail);
        assert a[lex..] == a[..][lex..];
        lex := ScanProp(a, lex, scan, rest.prop, Encode(rest.rest, closing) + tail);
        rest := rest.rest;
      } else if token == FDT_BEGIN_NODE {
        if !last && hasNode {
          scan.Done();
        }
        last := true;
        ghost var was, kill, at := a[..], scan.kill, lex;
        ChildWords(a[..], lex, rest, closing, tail);
        assert a[lex..] == a[..][lex..];
        lex := ScanNode(a, lex, scan, rest.name, rest.body, Encode(rest.rest, closing) + tail);
        PastChild(was, a[..], at, rest, closing, tail, filtering, q, depth, kill, goal);
        rest := rest.rest;
      } else {
        if !last && hasNode {
          scan.Done();
        }
        AtLast(a[..], lex, rest, closing, tail, filtering, q, depth, scan.kill, goal);
        next := if token == FDT_END_NODE then lex + 1 else lex;
        return;
      }
    }
  }

  // ----- whole blocks -----

  /** A scan that changes nothing: the calls made are the preorder walk of the tree, wherever the NOPs are. */
  method Scan(a: array<u32>, start: nat, query: Query, ghost t: Items, ghost tail: seq<u32>) returns (events: seq<Event>)
    requires WellFormed(t, false) && Props(t) == [] && NoNul(query.compat)
    requires start <= a.Length && a[start..] == Encode(t, FDT_END) + tail
    modifies a
    ensures a[..] == old(a[..])
    ensures events == Preorder(Meaning(t))
  {
    var scan := new CompatScan(query, false);
    assert a[..] == a[..start] + a[start..];
    Regroup(a[..start], Encode(t, FDT_END), tail);
    var next := ScanHelper(a, start, false, scan, t, FDT_END, tail);
    TraceIsPreorder(t, false, false);
    events := scan.events;
  }

  /** filter_compat on the structure block that starts at word start. */
  method FilterCompat(a: array<u32>, start: nat, query: Query, ghost t: Items, ghost tail: seq<u32>)
    requires WellFormed(t, false) && Props(t) == [] && NoNul(query.compat)
    requires start <= a.Length && a[start..] == Encode(t, FDT_END) + tail
    modifies a
    ensures a[..] == old(a[..start]) + Encode(Filtered(query, t, 0, NO_KILL).0, FDT_END) + tail
    ensures a[..] == old(a[..start]) + Encode(PruneItems(query, t), FDT_END) + tail
            <==> Height(PruneItems(query, t)) < NO_KILL
  {
    var scan := new CompatScan(query, true);
    FilterExactly(query, t, FDT_END);
    Between(a[..start], Encode(Filtered(query, t, 0, NO_KILL).0, FDT_END), Encode(PruneItems(query, t), FDT_END), tail, tail);
    var next := ScanHelper(a, start, false, scan, t, FDT_END, tail);
  }

  /**
   * Scanning a filtered block walks the tree without the nodes that have a "compatible" property whose value is a
   * list of strings with the given one among them, and without everything below those nodes.
   */
  method FilterThenScan(a: array<u32>, start: nat, query: Query, ghost t: Items, ghost tail: seq<u32>)
    returns (events: seq<Event>)
    requires WellFormed(t, false) && Props(t) == [] && NoNul(query.compat)
    requires start <= a.Length && a[start..] == Encode(t, FDT_END) + tail
    requires Height(PruneItems(query, t)) < NO_KILL
    modifies a
    ensures events == Preorder(Without(query, Meaning(t)))
  {
    ghost var pruned := PruneItems(query, t);
    PrunedMeaning(query, t, false);
    PruneMeaning(query, Meaning(t));
    FilterCompat(a, start, query, t, tail);
    assert a[start..] == Encode(pruned, FDT_END) + tail;
    events := Scan(a, start, query, pruned, tail);
  }

  /** Filtering a second time changes no word. */
  method FilterTwice(a: array<u32>, start: nat, query: Query, ghost t: Items, ghost tail: seq<u32>)
    requires WellFormed(t, false) && Props(t) == [] && NoNul(query.compat)
    requires start <= a.Length && a[start..] == Encode(t, FDT_END) + tail
    requires Height(PruneItems(query, t)) < NO_KILL
    modifies a
    ensures a[..] == old(a[..start]) + Encode(PruneItems(query, t), FDT_END) + tail
  {
    ghost var pruned := PruneItems(query, t);
    PrunedMeaning(query, t, false);
    PruneTwice(query, t, false);
    FilterCompat(a, start, query, t, tail);
    assert a[start..] == Encode(pruned, FDT_END) + tail;
    assert a[..start] == old(a[..start]);
    FilterCompat(a, start, query, pruned, tail);
  }

  // ----- by the numbers -----

  /** A block that reads by the numerals of section 5.4.1 of the Devicetree Specification is scanned as it reads. */
  method ScanByNumerals(a: array<u32>, start: nat, query: Query, ghost t: Items) returns (events: seq<Event>)
    requires WellFormed(t, false) && Props(t) == [] && NoNul(query.compat)
    requires start + Size(t) <= a.Length && Reads(a[start..start + Size(t)], t, 9)
    modifies a
    ensures a[..] == old(a[..])
    ensures events == Preorder(Meaning(t))
  {
    ReadsEncode(a[start..start + Size(t)], t, 9);
    ghost var tail := a[start + Size(t)..];
    assert a[start..] == a[start..start + Size(t)] + tail;
    events := Scan(a, start, query, t, tail);
  }

  /**
   * A NOP, then node "a" with a five-byte property whose name is at offset 7 and a four-byte one at offset 0, another
   * NOP, and in it node "b" without properties.
   */
  const SMALL_BLOCK: seq<u32> :=
    [4, 1, 0x6100_0000, 3, 5, 7, 0x1234_5678, 0x9A00_0000, 3, 4, 0, 0xBCDE_F012, 4, 1, 0x6200_0000, 2, 2, 9]

  const FIVE_BYTES := PropData(7, 5, [0x1234_5678, 0x9A00_0000])
  const FOUR_BYTES := PropData(0, 4, [0xBCDE_F012])

  ghost function NodeB(): Items { Child([0x6200_0000], Last, Last) }
  ghost function InNodeA(): Items { Prop(FIVE_BYTES, Prop(FOUR_BYTES, Nop(NodeB()))) }
  ghost function SmallItems(): Items { Nop(Child([0x6100_0000], InNodeA(), Last)) }

  lemma InNodeAWords()
    ensures Encode(InNodeA(), FDT_END_NODE)
            == [3, 5, 7, 0x1234_5678, 0x9A00_0000, 3, 4, 0, 0xBCDE_F012, 4, 1, 0x6200_0000, 2, 2]
  {
    assert Encode(NodeB(), FDT_END_NODE) == [1, 0x6200_0000, 2, 2];
    assert Encode(Nop(NodeB()), FDT_END_NODE) == [4, 1, 0x6200_0000, 2, 2];
    assert Encode(Prop(FOUR_BYTES, Nop(NodeB())), FDT_END_NODE) == [3, 4, 0, 0xBCDE_F012, 4, 1, 0x6200_0000, 2, 2];
  }

  lemma SmallBlockReads()
    ensures Size(SmallItems()) == |SMALL_BLOCK| && Reads(SMALL_BLOCK, SmallItems(), 9)
  {
    InNodeAWords();
    hide InNodeA;
    ChildEncoding([0x6100_0000], InNodeA(), Last, 9);
    assert Encode(Last, 9) == [9];
    var words := Encode(Child([0x6100_0000], InNodeA(), Last), 9);
    assert [4] + words == SMALL_BLOCK;
    ReadsEncode(SMALL_BLOCK, SmallItems(), 9);
    SizeOf(SmallItems(), 9);
    hide Reads, Size;
  }

  lemma SmallBlockMeaning()
    ensures WellFormed(SmallItems(), false) && Props(SmallItems()) == []
    ensures Preorder(Meaning(SmallItems()))
            == [Opened([0x6100_0000]), Property(FIVE_BYTES), Property(FOUR_BYTES), PropsDone,
                Opened([0x6200_0000]), PropsDone, Closed([0x6200_0000]), Closed([0x6100_0000])]
  {
    assert WellFormed(NodeB(), true) && Props(NodeB()) == [];
    assert Preorder(Meaning(NodeB())) == [Opened([0x6200_0000]), PropsDone, Closed([0x6200_0000])];
    assert Meaning(InNodeA()) == Meaning(NodeB());
    assert Props(InNodeA()) == [FIVE_BYTES, FOUR_BYTES];
    assert [FIVE_BYTES, FOUR_BYTES][1..] == [FOUR_BYTES];
    assert PropEvents([FOUR_BYTES]) == [Property(FOUR_BYTES)];
    assert WellFormed(InNodeA(), false);
  }

  /** What a scan of it reports. */
  method ScanSmallBlock() returns (events: seq<Event>)
    ensures events == [Opened([0x6100_0000]), Property(FIVE_BYTES), Property(FOUR_BYTES), PropsDone,
                       Opened([0x6200_0000]), PropsDone, Closed([0x6200_0000]), Closed([0x6100_0000])]
  {
    var a := new u32[|SMALL_BLOCK|](i requires 0 <= i < |SMALL_BLOCK| => SMALL_BLOCK[i]);
    assert a[..] == SMALL_BLOCK;
    SmallBlockReads();
    SmallBlockMeaning();
    assert a[0..Size(SmallItems())] == SMALL_BLOCK;
    hide SmallItems;
    events := ScanByNumerals(a, 0, Query([], []), SmallItems());
  }
}
