/**
 * The structure block of a flattened device tree (Devicetree Specification, section 5.4): its tokens as a
 * tree, NOPs included; the trees they stand for; the callbacks a scan makes; what filtering leaves.
 */
module FdtTree {
  import opened FdtStrings
  import opened Words

  const FDT_BEGIN_NODE := 1
  const FDT_END_NODE := 2
  const FDT_PROP := 3
  const FDT_NOP := 4
  const FDT_END := 9

  /** The j-th byte in memory of a word of the block; the word is the big-endian number that bswap reads. */
  function ByteOf(w: u32, j: nat): u8
    requires j < 4
  {
    (if j == 0 then w / 0x100_0000 else if j == 1 then w / 0x1_0000 else if j == 2 then w / 0x100 else w) % 0x100
  }

  /** The word is the big-endian number of its bytes. */
  lemma WordOfBytes(w: u32)
    ensures w == ((ByteOf(w, 0) * 256 + ByteOf(w, 1)) * 256 + ByteOf(w, 2)) * 256 + ByteOf(w, 3)
  {
    var q := w / 0x100;
    var r := q / 0x100;
    assert w / 0x1_0000 == r && w / 0x100_0000 == r / 0x100;
    assert w == q * 256 + w % 0x100 && q == r * 256 + q % 0x100 && r == (r / 0x100) * 256 + r % 0x100;
    assert r / 0x100 < 0x100;
  }

  predicate HasNul(w: u32) {
    ByteOf(w, 0) == 0 || ByteOf(w, 1) == 0 || ByteOf(w, 2) == 0 || ByteOf(w, 3) == 0
  }

  /** A node name: NUL-terminated in its last word, whatever the padding after the NUL. */
  predicate IsName(name: seq<u32>) {
    && name != []
    && HasNul(name[|name| - 1])
    && forall i :: 0 <= i < |name| - 1 ==> !HasNul(name[i])
  }

  /** A property: the offset of its name, its length in bytes, and its value padded to words. */
  datatype PropData = PropData(nameOffset: u32, len: u32, value: seq<u32>)

  predicate IsProp(p: PropData) {
    p.len < 0x7FFF_FFFD && |p.value| == (p.len + 3) / 4
  }

  /** The value takes the fewest words that hold its bytes, and the length rounded up still fits a signed word. */
  lemma PaddedValue(p: PropData)
    ensures IsProp(p) <==> p.len + 3 < 0x8000_0000 && p.len <= 4 * |p.value| < p.len + 4
  {
  }

  /** The tokens of one nesting level, up to the one that closes it. */
  datatype Items =
    | Last
    | Nop(rest: Items)
    | Prop(prop: PropData, rest: Items)
    | Child(name: seq<u32>, body: Items, rest: Items)

  /** Names and properties are well formed, and no property follows a subnode. */
  predicate WellFormed(t: Items, last: bool) {
    match t
    case Last => true
    case Nop(rest) => WellFormed(rest, last)
    case Prop(p, rest) => !last && IsProp(p) && WellFormed(rest, false)
    case Child(name, body, rest) => IsName(name) && WellFormed(body, false) && WellFormed(rest, true)
  }

  /** Tokens that end a level: FDT_END_NODE, or anything that is not another token. */
  predicate Closing(w: u32) {
    w != FDT_BEGIN_NODE && w != FDT_PROP && w != FDT_NOP
  }

  /** The words of a level, ending in the closing token. */
  function Encode(t: Items, closing: u32): (w: seq<u32>)
    ensures |w| > 0
  {
    match t
    case Last => [closing]
    case Nop(rest) => [FDT_NOP] + Encode(rest, closing)
    case Prop(p, rest) => [FDT_PROP, p.len, p.nameOffset] + p.value + Encode(rest, closing)
    case Child(name, body, rest) => [FDT_BEGIN_NODE] + name + Encode(body, FDT_END_NODE) + Encode(rest, closing)
  }

  function NodeSize(name: seq<u32>, body: Items): nat {
    1 + |name| + |Encode(body, FDT_END_NODE)|
  }

  /** How many words a level takes. */
  function Size(t: Items): nat {
    match t
    case Last => 1
    case Nop(rest) => 1 + Size(rest)
    case Prop(p, rest) => 3 + |p.value| + Size(rest)
    case Child(name, body, rest) => 1 + |name| + Size(body) + Size(rest)
  }

  /**
   * The structure block as section 5.4.1 of the Devicetree Specification writes its tokens: 4 is a NOP, 3 a property
   * with its length, name offset and padded value, 1 begins a node with its name and 2 ends it.
   */
  predicate Reads(w: seq<u32>, t: Items, closing: u32)
    decreases t
  {
    |w| == Size(t) &&
    match t
    case Last => w[0] == closing
    case Nop(rest) => w[0] == 4 && Reads(w[1..], rest, closing)
    case Prop(p, rest) =>
      var n := 3 + |p.value|;
      w[0] == 3 && w[1] == p.len && w[2] == p.nameOffset && w[3..n] == p.value && Reads(w[n..], rest, closing)
    case Child(name, body, rest) =>
      var at, next := 1 + |name|, 1 + |name| + Size(body);
      w[0] == 1 && w[1..at] == name && Reads(w[at..next], body, 2) && Reads(w[next..], rest, closing)
  }

  /** Encode gives exactly the words that read so. */
  lemma {:induction false} ReadsEncode(w: seq<u32>, t: Items, closing: u32)
    ensures Reads(w, t, closing) <==> w == Encode(t, closing)
    decreases t
  {
    SizeOf(t, closing);
    if |w| == Size(t) {
      match t
      case Last =>
      case Nop(rest) =>
        ReadsEncode(w[1..], rest, closing);
        assert w == [w[0]] + w[1..];
      case Prop(p, rest) =>
        ReadsEncode(w[3 + |p.value|..], rest, closing);
        PropReads(w, p, rest, closing);
        hide Reads, Encode;
      case Child(name, body, rest) =>
        var at, next := 1 + |name|, 1 + |name| + Size(body);
        ReadsEncode(w[at..next], body, 2);
        ReadsEncode(w[next..], rest, closing);
        ChildReads(w, name, body, rest, closing);
        hide Reads, Encode;
    }
  }

  lemma PropReads(w: seq<u32>, p: PropData, rest: Items, closing: u32)
    requires |w| == Size(Prop(p, rest))
    requires Reads(w[3 + |p.value|..], rest, closing) <==> w[3 + |p.value|..] == Encode(rest, closing)
    ensures Reads(w, Prop(p, rest), closing) <==> w == Encode(Prop(p, rest), closing)
  {
    SizeOf(rest, closing);
    ThreeParts(w, 3, 3 + |p.value|, [3, p.len, p.nameOffset], p.value, Encode(rest, closing));
    assert w[..3] == [w[0], w[1], w[2]];
  }

  lemma ChildReads(w: seq<u32>, name: seq<u32>, body: Items, rest: Items, closing: u32)
    requires |w| == Size(Child(name, body, rest))
    requires
      var at, next := 1 + |name|, 1 + |name| + Size(body);
      && (Reads(w[at..next], body, 2) <==> w[at..next] == Encode(body, 2))
      && (Reads(w[next..], rest, closing) <==> w[next..] == Encode(rest, closing))
    ensures Reads(w, Child(name, body, rest), closing) <==> w == Encode(Child(name, body, rest), closing)
  {
    var at, next := 1 + |name|, 1 + |name| + Size(body);
    assert |w| == next + Size(rest);
    assert Reads(w, Child(name, body, rest), closing)
           <==> w[0] == 1 && w[1..at] == name && Reads(w[at..next], body, 2) && Reads(w[next..], rest, closing);
    hide Reads, Encode, Size;
    SizeOf(body, 2);
    SizeOf(rest, closing);
    ChildEncoding(name, body, rest, closing);
    ThreeParts(w, at, next, [1] + name, Encode(body, 2), Encode(rest, closing));
    HeadAndTail(w[..at], 1, name);
    assert w[..at][1..] == w[1..at];
  }

  lemma HeadAndTail(w: seq<u32>, x: u32, y: seq<u32>)
    requires w != []
    ensures w == [x] + y <==> w[0] == x && w[1..] == y
  {
    assert w == [w[0]] + w[1..];
    assert ([x] + y)[0] == x && ([x] + y)[1..] == y;
  }

  lemma {:induction false} SizeOf(t: Items, closing: u32)
    ensures |Encode(t, closing)| == Size(t)
  {
    match t
    case Last =>
    case Nop(rest) => SizeOf(rest, closing);
    case Prop(_, rest) => SizeOf(rest, closing);
    case Child(_, body, rest) =>
      SizeOf(body, 2);
      SizeOf(rest, closing);
  }

  lemma ThreeParts(w: seq<u32>, i: nat, j: nat, x: seq<u32>, y: seq<u32>, z: seq<u32>)
    requires i == |x| && j == i + |y| && |w| == j + |z|
    ensures w == x + y + z <==> w[..i] == x && w[i..j] == y && w[j..] == z
  {
    assert w == w[..i] + w[i..j] + w[j..];
    assert (x + y + z)[..i] == x && (x + y + z)[i..j] == y && (x + y + z)[j..] == z;
  }

  // ----- the trees -----

  /** Nodes in order: the first one with its properties and subnodes, then its siblings. */
  datatype Forest =
    | Empty
    | Tree(name: seq<u32>, props: seq<PropData>, kids: Forest, siblings: Forest)

  function Props(t: Items): seq<PropData> {
    match t
    case Last => []
    case Nop(rest) => Props(rest)
    case Prop(p, rest) => [p] + Props(rest)
    case Child(_, _, rest) => Props(rest)
  }

  function Meaning(t: Items): Forest {
    match t
    case Last => Empty
    case Nop(rest) => Meaning(rest)
    case Prop(_, rest) => Meaning(rest)
    case Child(name, body, rest) => Tree(name, Props(body), Meaning(body), Meaning(rest))
  }

  // ----- the callbacks of a scan -----

  datatype Event = Opened(name: seq<u32>) | Property(p: PropData) | PropsDone | Closed(name: seq<u32>)

  /** The calls fdt_scan_helper makes for one level, following its tokens. */
  function Trace(t: Items, hasNode: bool, last: bool): seq<Event> {
    match t
    case Last => DoneOnce(hasNode, last)
    case Nop(rest) => Trace(rest, hasNode, last)
    case Prop(p, rest) => [Property(p)] + Trace(rest, hasNode, last)
    case Child(name, body, rest) =>
      DoneOnce(hasNode, last) + ([Opened(name)] + Trace(body, true, false) + [Closed(name)] + Trace(rest, hasNode, true))
  }

  function DoneOnce(hasNode: bool, last: bool): seq<Event> {
    if hasNode && !last then [PropsDone] else []
  }

  function PropEvents(ps: seq<PropData>): seq<Event> {
    if ps == [] then [] else [Property(ps[0])] + PropEvents(ps[1..])
  }

  /** Preorder: open, all properties, done, the subnodes, close. */
  function Preorder(f: Forest): seq<Event> {
    match f
    case Empty => []
    case Tree(name, props, kids, siblings) =>
      [Opened(name)] + PropEvents(props) + [PropsDone] + Preorder(kids) + [Closed(name)] + Preorder(siblings)
  }

  lemma {:induction false} NoLateProps(t: Items)
    requires WellFormed(t, true)
    ensures Props(t) == []
  {
    match t
    case Last =>
    case Nop(rest) => NoLateProps(rest);
    case Prop(_, _) =>
    case Child(_, _, rest) => NoLateProps(rest);
  }

  /** Wherever the NOPs are, the calls are the preorder walk of the tree. */
  lemma {:induction false} TraceIsPreorder(t: Items, hasNode: bool, last: bool)
    requires WellFormed(t, last)
    ensures Trace(t, hasNode, last) == PropEvents(Props(t)) + DoneOnce(hasNode, last) + Preorder(Meaning(t))
  {
    match t
    case Last =>
    case Nop(rest) => TraceIsPreorder(rest, hasNode, last);
    case Prop(p, rest) =>
      TraceIsPreorder(rest, hasNode, false);
      PropCalls(p, Props(rest));
      hide PropEvents;
    case Child(name, body, rest) =>
      TraceIsPreorder(body, true, false);
      TraceIsPreorder(rest, hasNode, true);
      NoLateProps(rest);
      assert Trace(rest, hasNode, true) == Preorder(Meaning(rest));
      hide PropEvents;
      ChildCalls(name, PropEvents(Props(body)), Preorder(Meaning(body)), Preorder(Meaning(rest)), DoneOnce(hasNode, last));
  }

  lemma PropCalls(p: PropData, ps: seq<PropData>)
    ensures PropEvents([p] + ps) == [Property(p)] + PropEvents(ps)
  {
    assert ([p] + ps)[1..] == ps;
  }

  lemma ChildCalls(name: seq<u32>, props: seq<Event>, kids: seq<Event>, siblings: seq<Event>, done: seq<Event>)
    ensures done + ([Opened(name)] + (props + [PropsDone] + kids) + [Closed(name)] + siblings)
            == [] + done + ([Opened(name)] + props + [PropsDone] + kids + [Closed(name)] + siblings)
  {
    var o, d, c := [Opened(name)], [PropsDone], [Closed(name)];
    assert o + (props + d + kids) + c + siblings == o + props + d + kids + c + siblings;
  }

  // ----- filtering -----

  /** What filter_compat looks for: a "compatible" property that lists a given string. */
  datatype Query = Query(strings: seq<u8>, compat: seq<u8>)

  const COMPATIBLE: seq<u8> := [0x63, 0x6F, 0x6D, 0x70, 0x61, 0x74, 0x69, 0x62, 0x6C, 0x65]

  /** The bytes of a value. */
  function ValueBytes(p: PropData): seq<u8>
    requires IsProp(p)
  {
    seq(p.len, i requires 0 <= i < p.len => ByteOf(p.value[i / 4], i % 4))
  }

  /** They are as many as the length says, and stand in the words four to a word, in order. */
  lemma ValueWords(p: PropData, k: nat, j: nat)
    requires IsProp(p) && j < 4 && 4 * k + j < p.len
    ensures k < |p.value| && |ValueBytes(p)| == p.len
    ensures ValueBytes(p)[4 * k + j] == ByteOf(p.value[k], j)
  {
    assert (4 * k + j) / 4 == k && (4 * k + j) % 4 == j;
    hide ByteOf;
  }

  predicate Lists(q: Query, p: PropData) {
    && IsProp(p)
    && p.nameOffset <= |q.strings|
    && CString(q.strings, p.nameOffset) == COMPATIBLE
    && ListIndex(ValueBytes(p), q.compat) >= 0
  }

  predicate AnyLists(q: Query, ps: seq<PropData>) {
    exists i :: 0 <= i < |ps| && Lists(q, ps[i])
  }

  /** The bytes of characters. */
  function Ascii(s: string): seq<u8> {
    seq(|s|, i requires 0 <= i < |s| => (s[i] as int) % 0x100)
  }

  /** The string at an offset is name: its bytes, and then a NUL or the end of the memory. */
  predicate StandsAt(mem: seq<u8>, at: nat, name: seq<u8>) {
    && at + |name| <= |mem| && mem[at..at + |name|] == name
    && (at + |name| < |mem| ==> mem[at + |name|] == 0)
  }

  /**
   * What it means that a property lists the string: it is named "compatible", and its value is a list of
   * NUL-terminated strings with that one among them.
   */
  ghost predicate Mentions(q: Query, p: PropData) {
    && IsProp(p) && StandsAt(q.strings, p.nameOffset, Ascii("compatible"))
    && exists strs :: NulFree(strs) && Joined(strs) == Terminated(ValueBytes(p)) && q.compat in strs
  }

  lemma Spelled()
    ensures Ascii("compatible") == COMPATIBLE && NoNul(COMPATIBLE)
  {
    assert 'c' as int == 0x63 && 'o' as int == 0x6F && 'm' as int == 0x6D && 'p' as int == 0x70 && 'a' as int == 0x61;
    assert 't' as int == 0x74 && 'i' as int == 0x69 && 'b' as int == 0x62 && 'l' as int == 0x6C && 'e' as int == 0x65;
  }

  lemma StandsAtString(mem: seq<u8>, at: nat, name: seq<u8>)
    requires at <= |mem| && NoNul(name)
    ensures StandsAt(mem, at, name) <==> CString(mem, at) == name
  {
    var s := CString(mem, at);
    if StandsAt(mem, at, name) {
      SamePrefix(mem, at, name, |name|);
      NoNulBefore(mem, at, |name|);
      assert s[..|name|] == name[..|name|];
    }
  }

  lemma NoNulBefore(mem: seq<u8>, at: nat, k: nat)
    requires at <= |mem|
    ensures k < |CString(mem, at)| ==> at + k < |mem| && mem[at + k] != 0
  {
    if k < |CString(mem, at)| { assert CString(mem, at)[k] == mem[at + k]; }
  }

  /** Which properties list the string. */
  lemma ListsMeaning(q: Query, p: PropData)
    ensures Lists(q, p) <==> Mentions(q, p)
  {
    if IsProp(p) && p.nameOffset <= |q.strings| {
      Spelled();
      StandsAtString(q.strings, p.nameOffset, COMPATIBLE);
      hide CString, Ascii, StandsAt;
      var value := ValueBytes(p);
      StringsJoined(value);
      forall strs | NulFree(strs) && Joined(strs) == Terminated(value)
        ensures 0 <= ListIndex(value, q.compat) <==> q.compat in strs
      {
        ListIndexMeaning(value, strs, q.compat);
      }
      hide ListIndex, ValueBytes, Joined, Strings, NulFree, Terminated;
    }
  }

  const NO_KILL := 999

  function Nops(n: nat, t: Items): Items {
    if n == 0 then t else Nop(Nops(n - 1, t))
  }

  /** The level after the scan, and the value left in kill, as the callbacks of filter_compat compute them. */
  function Filtered(q: Query, t: Items, depth: nat, kill: int): (Items, int) {
    match t
    case Last => (Last, kill)
    case Nop(rest) =>
      var r := Filtered(q, rest, depth, kill);
      (Nop(r.0), r.1)
    case Prop(p, rest) =>
      var r := Filtered(q, rest, depth, if Lists(q, p) && depth < kill then depth else kill);
      (Prop(p, r.0), r.1)
    case Child(name, body, rest) =>
      var b := Filtered(q, body, depth + 1, kill);
      if b.1 == depth + 1 then
        var r := Filtered(q, rest, depth, NO_KILL);
        (Nops(NodeSize(name, b.0), r.0), r.1)
      else
        var r := Filtered(q, rest, depth, b.1);
        (Child(name, b.0, r.0), r.1)
  }

  /** The nodes that list the string removed, each with everything below it. */
  function Prune(q: Query, f: Forest): Forest {
    match f
    case Empty => Empty
    case Tree(name, props, kids, siblings) =>
      if AnyLists(q, props) then Prune(q, siblings)
      else Tree(name, props, Prune(q, kids), Prune(q, siblings))
  }

  /** The forest without the nodes that have a property mentioning the string, and without everything below them. */
  ghost function Without(q: Query, f: Forest): Forest {
    match f
    case Empty => Empty
    case Tree(name, props, kids, siblings) =>
      if exists p :: p in props && Mentions(q, p) then Without(q, siblings)
      else Tree(name, props, Without(q, kids), Without(q, siblings))
  }

  lemma {:induction false} PruneMeaning(q: Query, f: Forest)
    ensures Prune(q, f) == Without(q, f)
  {
    hide Lists, Mentions;
    match f
    case Empty =>
    case Tree(_, props, kids, siblings) =>
      PruneMeaning(q, kids);
      PruneMeaning(q, siblings);
      forall p | p in props ensures Lists(q, p) <==> Mentions(q, p) { ListsMeaning(q, p); }
  }

  /** The same on tokens: a removed node becomes as many NOPs. */
  function PruneItems(q: Query, t: Items): Items {
    match t
    case Last => Last
    case Nop(rest) => Nop(PruneItems(q, rest))
    case Prop(p, rest) => Prop(p, PruneItems(q, rest))
    case Child(name, body, rest) =>
      if AnyLists(q, Props(body)) then Nops(NodeSize(name, body), PruneItems(q, rest))
      else Child(name, PruneItems(q, body), PruneItems(q, rest))
  }

  /** The words that lie in a removed node. */
  function Removed(q: Query, t: Items): seq<bool> {
    match t
    case Last => [false]
    case Nop(rest) => [false] + Removed(q, rest)
    case Prop(p, rest) => seq(3 + |p.value|, i => false) + Removed(q, rest)
    case Child(name, body, rest) =>
      if AnyLists(q, Props(body)) then seq(NodeSize(name, body), i => true) + Removed(q, rest)
      else seq(1 + |name|, i => false) + Removed(q, body) + Removed(q, rest)
  }

  /** How many levels of nodes there are. */
  function Height(t: Items): nat {
    match t
    case Last => 0
    case Nop(rest) => Height(rest)
    case Prop(_, rest) => Height(rest)
    case Child(_, body, rest) => if Height(rest) <= Height(body) then Height(body) + 1 else Height(rest)
  }

  /** Once a node is marked, nothing below it changes and it stays marked. */
  lemma {:induction false} MarkedUnchanged(q: Query, t: Items, depth: nat, kill: int)
    requires kill <= depth
    ensures Filtered(q, t, depth, kill) == (t, kill)
  {
    match t
    case Last =>
    case Nop(rest) => MarkedUnchanged(q, rest, depth, kill);
    case Prop(_, rest) => MarkedUnchanged(q, rest, depth, kill);
    case Child(_, body, rest) =>
      MarkedUnchanged(q, body, depth + 1, kill);
      MarkedUnchanged(q, rest, depth, kill);
  }

  lemma FirstProp(q: Query, p: PropData, ps: seq<PropData>)
    ensures AnyLists(q, [p] + ps) <==> Lists(q, p) || AnyLists(q, ps)
  {
    hide Lists;
    var all := [p] + ps;
    if AnyLists(q, ps) {
      var i :| 0 <= i < |ps| && Lists(q, ps[i]);
      assert Lists(q, all[i + 1]);
    }
    if AnyLists(q, all) {
      var i :| 0 <= i < |all| && Lists(q, all[i]);
      assert i > 0 ==> all[i] == ps[i - 1];
    }
    if Lists(q, p) { assert all[0] == p; }
  }

  /** As long as what is left is less than 999 levels deep, the marks do what they are for. */
  lemma {:induction false} FilteredPrunes(q: Query, t: Items, depth: nat, last: bool)
    requires WellFormed(t, last) && depth <= NO_KILL
    requires AnyLists(q, Props(t)) || depth + Height(PruneItems(q, t)) < NO_KILL
    ensures Filtered(q, t, depth, NO_KILL)
            == if AnyLists(q, Props(t)) then (t, depth as int) else (PruneItems(q, t), NO_KILL)
  {
    hide Lists, Encode, IsProp, IsName;
    if depth == NO_KILL {
      MarkedUnchanged(q, t, depth, NO_KILL);
    } else {
      match t
      case Last =>
      case Nop(rest) => FilteredPrunes(q, rest, depth, last);
      case Prop(p, rest) =>
        FirstProp(q, p, Props(rest));
        if Lists(q, p) {
          MarkedUnchanged(q, rest, depth, depth);
        } else {
          FilteredPrunes(q, rest, depth, false);
        }
      case Child(name, body, rest) =>
        NoLateProps(rest);
        NopsHeight(NodeSize(name, body), PruneItems(q, rest));
        FilteredPrunes(q, body, depth + 1, false);
        FilteredPrunes(q, rest, depth, true);
    }
  }

  lemma {:induction false} NopsHeight(n: nat, t: Items)
    ensures Height(Nops(n, t)) == Height(t)
  {
    if n > 0 { NopsHeight(n - 1, t); }
  }

  // ----- what pruning the tokens means -----

  lemma {:induction false} NopsMeaning(n: nat, t: Items, last: bool)
    ensures Meaning(Nops(n, t)) == Meaning(t) && Props(Nops(n, t)) == Props(t)
    ensures WellFormed(t, last) ==> WellFormed(Nops(n, t), last)
  {
    if n > 0 { NopsMeaning(n - 1, t, last); }
  }

  /** The pruned tokens are well formed and stand for the pruned tree. */
  lemma {:induction false} PrunedMeaning(q: Query, t: Items, last: bool)
    requires WellFormed(t, last)
    ensures WellFormed(PruneItems(q, t), last)
    ensures Props(PruneItems(q, t)) == Props(t)
    ensures Meaning(PruneItems(q, t)) == Prune(q, Meaning(t))
    ensures Height(PruneItems(q, t)) <= Height(t)
  {
    match t
    case Last =>
    case Nop(rest) => PrunedMeaning(q, rest, last);
    case Prop(_, rest) => PrunedMeaning(q, rest, false);
    case Child(name, body, rest) =>
      PrunedMeaning(q, body, false);
      PrunedMeaning(q, rest, true);
      NopsMeaning(NodeSize(name, body), PruneItems(q, rest), true);
      NopsMeaning(NodeSize(name, body), PruneItems(q, rest), last);
      NopsHeight(NodeSize(name, body), PruneItems(q, rest));
      Earlier(PruneItems(q, rest), last);
  }

  lemma {:induction false} Earlier(t: Items, last: bool)
    requires WellFormed(t, true)
    ensures WellFormed(t, last)
  {
    match t
    case Last =>
    case Nop(rest) => Earlier(rest, last);
    case Prop(_, _) =>
    case Child(_, _, _) =>
  }

  lemma {:induction false} PruneNops(q: Query, n: nat, t: Items)
    ensures PruneItems(q, Nops(n, t)) == Nops(n, PruneItems(q, t))
  {
    if n > 0 { PruneNops(q, n - 1, t); }
  }

  /** Pruning twice is pruning once. */
  lemma {:induction false} PruneTwice(q: Query, t: Items, last: bool)
    requires WellFormed(t, last)
    ensures PruneItems(q, PruneItems(q, t)) == PruneItems(q, t)
  {
    match t
    case Last =>
    case Nop(rest) => PruneTwice(q, rest, last);
    case Prop(_, rest) => PruneTwice(q, rest, false);
    case Child(name, body, rest) =>
      PruneTwice(q, body, false);
      PruneTwice(q, rest, true);
      PruneNops(q, NodeSize(name, body), PruneItems(q, rest));
      PrunedMeaning(q, body, false);
  }

  /** No node that lists the string is left in a pruned tree. */
  lemma {:induction false} PrunedHasNone(q: Query, f: Forest)
    ensures Prune(q, Prune(q, f)) == Prune(q, f)
    ensures NoneLists(q, Prune(q, f))
    ensures NoneLists(q, f) ==> Prune(q, f) == f
  {
    match f
    case Empty =>
    case Tree(_, _, kids, siblings) =>
      PrunedHasNone(q, kids);
      PrunedHasNone(q, siblings);
  }

  predicate NoneLists(q: Query, f: Forest) {
    match f
    case Empty => true
    case Tree(_, props, kids, siblings) => !AnyLists(q, props) && NoneLists(q, kids) && NoneLists(q, siblings)
  }

  // ----- word by word -----

  function NopWords(n: nat): (w: seq<u32>)
    ensures |w| == n && forall i :: 0 <= i < n ==> w[i] == FDT_NOP
  {
    seq(n, i => FDT_NOP)
  }

  lemma {:induction false} EncodeNops(n: nat, t: Items, closing: u32)
    ensures Encode(Nops(n, t), closing) == NopWords(n) + Encode(t, closing)
  {
    if n > 0 {
      EncodeNops(n - 1, t, closing);
      assert NopWords(n) == [FDT_NOP] + NopWords(n - 1);
    } else {
      assert NopWords(0) == [];
    }
  }

  /** now is was with NOPs where the mask is set. */
  predicate NopsWhere(now: seq<u32>, was: seq<u32>, mask: seq<bool>) {
    |now| == |was| == |mask| && forall i :: 0 <= i < |now| ==> now[i] == if mask[i] then FDT_NOP else was[i]
  }

  lemma NopsAppend(a: seq<u32>, b: seq<u32>, m: seq<bool>, c: seq<u32>, d: seq<u32>, n: seq<bool>)
    requires NopsWhere(a, b, m) && NopsWhere(c, d, n)
    ensures NopsWhere(a + c, b + d, m + n)
  {
  }

  lemma NopsNowhere(a: seq<u32>)
    ensures NopsWhere(a, a, seq(|a|, i => false))
    ensures NopsWhere(NopWords(|a|), a, seq(|a|, i => true))
  {
  }

  /** Words change only inside removed nodes, and there they all become NOPs. */
  lemma {:induction false} PrunedWords(q: Query, t: Items, closing: u32)
    ensures NopsWhere(Encode(PruneItems(q, t), closing), Encode(t, closing), Removed(q, t))
    decreases t, 1
  {
    match t
    case Last =>
    case Nop(rest) =>
      PrunedWords(q, rest, closing);
      NopsAppend([FDT_NOP], [FDT_NOP], [false], Encode(PruneItems(q, rest), closing), Encode(rest, closing), Removed(q, rest));
    case Prop(p, rest) =>
      PrunedWords(q, rest, closing);
      var w := [FDT_PROP, p.len, p.nameOffset] + p.value;
      NopsNowhere(w);
      NopsAppend(w, w, seq(|w|, i => false), Encode(PruneItems(q, rest), closing), Encode(rest, closing), Removed(q, rest));
    case Child(name, body, rest) =>
      PrunedChild(q, name, body, rest, closing);
  }

  lemma {:induction false} PrunedChild(q: Query, name: seq<u32>, body: Items, rest: Items, closing: u32)
    ensures
      var t := Child(name, body, rest);
      NopsWhere(Encode(PruneItems(q, t), closing), Encode(t, closing), Removed(q, t))
    decreases Child(name, body, rest), 0
  {
    hide AnyLists, Encode, NopsWhere;
    PrunedWords(q, rest, closing);
    ChildEncoding(name, body, rest, closing);
    ChildEncoding(name, PruneItems(q, body), PruneItems(q, rest), closing);
    var w, b, r := [FDT_BEGIN_NODE] + name, Encode(body, FDT_END_NODE), Encode(rest, closing);
    var r' := Encode(PruneItems(q, rest), closing);
    if AnyLists(q, Props(body)) {
      NopsNowhere(w + b);
      EncodeNops(NodeSize(name, body), PruneItems(q, rest), closing);
      NopsAppend(NopWords(|w + b|), w + b, seq(|w + b|, i => true), r', r, Removed(q, rest));
    } else {
      PrunedWords(q, body, FDT_END_NODE);
      NopsNowhere(w);
      var b' := Encode(PruneItems(q, body), FDT_END_NODE);
      NopsAppend(w, w, seq(|w|, i => false), b', b, Removed(q, body));
      NopsAppend(w + b', w + b, seq(|w|, i => false) + Removed(q, body), r', r, Removed(q, rest));
    }
  }

  lemma {:induction false} FilteredSize(q: Query, t: Items, depth: nat, kill: int, closing: u32)
    ensures |Encode(Filtered(q, t, depth, kill).0, closing)| == |Encode(t, closing)|
  {
    match t
    case Last =>
    case Nop(rest) => FilteredSize(q, rest, depth, kill, closing);
    case Prop(p, rest) => FilteredSize(q, rest, depth, if Lists(q, p) && depth < kill then depth else kill, closing);
    case Child(name, body, rest) =>
      var b := Filtered(q, body, depth + 1, kill);
      FilteredSize(q, body, depth + 1, kill, FDT_END_NODE);
      if b.1 == depth + 1 {
        FilteredSize(q, rest, depth, NO_KILL, closing);
        EncodeNops(NodeSize(name, b.0), Filtered(q, rest, depth, NO_KILL).0, closing);
      } else {
        FilteredSize(q, rest, depth, b.1, closing);
      }
  }

  // ----- exactly when the filter is right -----

  lemma AfterPrefix(w: seq<u32>, x: seq<u32>, y: seq<u32>)
    ensures w + x == w + y <==> x == y
  {
    assert (w + x)[|w|..] == x && (w + y)[|w|..] == y;
  }

  lemma Between(w: seq<u32>, x: seq<u32>, y: seq<u32>, u: seq<u32>, v: seq<u32>)
    requires |x| == |y|
    ensures w + x + u == w + y + v <==> x == y && u == v
  {
    assert (w + x + u)[|w|..|w| + |x|] == x && (w + y + v)[|w|..|w| + |y|] == y;
    assert (w + x + u)[|w| + |x|..] == u && (w + y + v)[|w| + |y|..] == v;
  }

  lemma NopsFirst(n: nat, t: Items, closing: u32)
    requires n > 0
    ensures Encode(Nops(n, t), closing)[0] == FDT_NOP
  {
  }

  /**
   * A node left at depth 999 is overwritten although neither it nor anything above it lists the string: the
   * words are not those of the pruned tree.
   */
  lemma {:induction false} DeepNodeRemoved(q: Query, t: Items, depth: nat, last: bool, closing: u32)
    requires WellFormed(t, last) && depth < NO_KILL && !AnyLists(q, Props(t))
    requires NO_KILL <= depth + Height(PruneItems(q, t))
    ensures Encode(Filtered(q, t, depth, NO_KILL).0, closing) != Encode(PruneItems(q, t), closing)
    decreases t, 1
  {
    hide Lists, AnyLists, IsProp, IsName;
    match t
    case Last =>
    case Nop(rest) =>
      DeepNodeRemoved(q, rest, depth, last, closing);
      AfterPrefix([FDT_NOP], Encode(Filtered(q, rest, depth, NO_KILL).0, closing), Encode(PruneItems(q, rest), closing));
    case Prop(p, rest) =>
      FirstProp(q, p, Props(rest));
      DeepNodeRemoved(q, rest, depth, false, closing);
      AfterPrefix([FDT_PROP, p.len, p.nameOffset] + p.value,
                  Encode(Filtered(q, rest, depth, NO_KILL).0, closing), Encode(PruneItems(q, rest), closing));
    case Child(name, body, rest) =>
      NoLateProps(rest);
      NopsHeight(NodeSize(name, body), PruneItems(q, rest));
      if AnyLists(q, Props(body)) {
        DeepAfterRemoved(q, name, body, rest, depth, closing);
      } else {
        DeepInChild(q, name, body, rest, depth, closing);
      }
  }

  /** The deep node follows a node that is rightly removed. */
  lemma {:induction false} DeepAfterRemoved(q: Query, name: seq<u32>, body: Items, rest: Items, depth: nat, closing: u32)
    requires WellFormed(body, false) && WellFormed(rest, true) && depth < NO_KILL
    requires AnyLists(q, Props(body)) && !AnyLists(q, Props(rest))
    requires NO_KILL <= depth + Height(PruneItems(q, rest))
    ensures
      var t := Child(name, body, rest);
      Encode(Filtered(q, t, depth, NO_KILL).0, closing) != Encode(PruneItems(q, t), closing)
    decreases Child(name, body, rest), 0
  {
    hide Lists, AnyLists, WellFormed, Encode, NodeSize, Nops;
    FilteredPrunes(q, body, depth + 1, false);
    DeepNodeRemoved(q, rest, depth, true, closing);
    var n, r, r' := NodeSize(name, body), Filtered(q, rest, depth, NO_KILL).0, PruneItems(q, rest);
    EncodeNops(n, r, closing);
    EncodeNops(n, r', closing);
    AfterPrefix(NopWords(n), Encode(r, closing), Encode(r', closing));
  }

  /** The deep node is this one, below it, or after it. */
  lemma {:induction false} DeepInChild(q: Query, name: seq<u32>, body: Items, rest: Items, depth: nat, closing: u32)
    requires WellFormed(body, false) && WellFormed(rest, true) && depth < NO_KILL
    requires !AnyLists(q, Props(body)) && !AnyLists(q, Props(rest))
    requires NO_KILL <= depth + Height(PruneItems(q, Child(name, body, rest)))
    ensures
      var t := Child(name, body, rest);
      Encode(Filtered(q, t, depth, NO_KILL).0, closing) != Encode(PruneItems(q, t), closing)
    decreases Child(name, body, rest), 0
  {
    hide Lists, AnyLists, WellFormed, Encode;
    var b := Filtered(q, body, depth + 1, NO_KILL);
    var b', r' := PruneItems(q, body), PruneItems(q, rest);
    if b.1 == depth + 1 {
      NopsFirst(NodeSize(name, b.0), Filtered(q, rest, depth, NO_KILL).0, closing);
      ChildEncoding(name, b', r', closing);
    } else {
      assert Encode(b.0, FDT_END_NODE) != Encode(b', FDT_END_NODE)
             || Encode(Filtered(q, rest, depth, b.1).0, closing) != Encode(r', closing) by {
        if depth + 1 == NO_KILL {
          MarkedUnchanged(q, body, depth + 1, NO_KILL);
        } else if NO_KILL <= depth + 1 + Height(b') {
          DeepNodeRemoved(q, body, depth + 1, false, FDT_END_NODE);
        } else {
          FilteredPrunes(q, body, depth + 1, false);
          DeepNodeRemoved(q, rest, depth, true, closing);
        }
      }
      FilteredSize(q, body, depth + 1, NO_KILL, FDT_END_NODE);
      PrunedSize(q, body, FDT_END_NODE);
      var r := Filtered(q, rest, depth, b.1).0;
      ChildEncoding(name, b.0, r, closing);
      ChildEncoding(name, b', r', closing);
      Between([FDT_BEGIN_NODE] + name, Encode(b.0, FDT_END_NODE), Encode(b', FDT_END_NODE), Encode(r, closing), Encode(r', closing));
    }
  }

  lemma ChildEncoding(name: seq<u32>, body: Items, rest: Items, closing: u32)
    ensures Encode(Child(name, body, rest), closing)
            == [FDT_BEGIN_NODE] + name + Encode(body, FDT_END_NODE) + Encode(rest, closing)
    ensures Encode(Child(name, body, rest), closing)[0] == FDT_BEGIN_NODE
  {
  }

  lemma PrunedSize(q: Query, t: Items, closing: u32)
    ensures |Encode(PruneItems(q, t), closing)| == |Encode(t, closing)|
  {
    PrunedWords(q, t, closing);
  }

  /** The filter leaves the words of the pruned tree if and only if less than 999 levels are to be left. */
  lemma FilterExactly(q: Query, t: Items, closing: u32)
    requires WellFormed(t, false) && Props(t) == []
    ensures Encode(Filtered(q, t, 0, NO_KILL).0, closing) == Encode(PruneItems(q, t), closing)
            <==> Height(PruneItems(q, t)) < NO_KILL
    ensures |Encode(Filtered(q, t, 0, NO_KILL).0, closing)| == |Encode(PruneItems(q, t), closing)|
  {
    assert !AnyLists(q, Props(t));
    if Height(PruneItems(q, t)) < NO_KILL {
      FilteredPrunes(q, t, 0, false);
    } else {
      DeepNodeRemoved(q, t, 0, false, closing);
    }
    FilteredSize(q, t, 0, NO_KILL, closing);
    PrunedSize(q, t, closing);
  }

  // ----- a block on which it fails -----

  /** n nodes, one inside the other, without properties; their names are empty. */
  function Nest(n: nat): Items {
    if n == 0 then Last else Child([0], Nest(n - 1), Last)
  }

  lemma {:induction false} NestFacts(q: Query, n: nat)
    ensures WellFormed(Nest(n), false) && Props(Nest(n)) == [] && Height(Nest(n)) == n
    ensures PruneItems(q, Nest(n)) == Nest(n)
  {
    hide WellFormed, Props, Height, PruneItems;
    if n > 0 {
      NestFacts(q, n - 1);
      OneMoreLevel(q, Nest(n - 1));
    } else {
      NoLevels(q);
    }
  }

  lemma NoLevels(q: Query)
    ensures WellFormed(Last, false) && Props(Last) == [] && Height(Last) == 0 && PruneItems(q, Last) == Last
  {
  }

  lemma OneMoreLevel(q: Query, inner: Items)
    requires WellFormed(inner, false) && Props(inner) == [] && PruneItems(q, inner) == inner
    ensures
      var t := Child([0], inner, Last);
      WellFormed(t, false) && Props(t) == [] && Height(t) == Height(inner) + 1 && PruneItems(q, t) == t
  {
    hide AnyLists, IsName, Encode;
    NothingToRemove(q);
  }

  lemma NothingToRemove(q: Query)
    ensures IsName([0]) && !AnyLists(q, [])
  {
  }

  /** Filtering 999 nested nodes overwrites the innermost one, whatever is looked for: nothing lists anything. */
  lemma DeepNestDamaged(q: Query)
    ensures WellFormed(Nest(999), false) && Props(Nest(999)) == []
    ensures Prune(q, Meaning(Nest(999))) == Meaning(Nest(999))
    ensures Encode(Filtered(q, Nest(999), 0, NO_KILL).0, FDT_END) != Encode(Nest(999), FDT_END)
  {
    hide Nest, Encode, Filtered, WellFormed, PruneItems, Height;
    NestFacts(q, 999);
    PrunedMeaning(q, Nest(999), false);
    FilterExactly(q, Nest(999), FDT_END);
  }
}
