/** C strings in flattened device trees: strlen, strcmp, and lists of NUL-terminated strings. */
module FdtStrings {

  type u8 = x: int | 0 <= x < 0x100

  /** The string that starts at i: up to the next NUL, or to the end of the memory. */
  function CString(mem: seq<u8>, i: nat): (s: seq<u8>)
    requires i <= |mem|
    ensures i + |s| <= |mem| && s == mem[i..i + |s|]
    ensures forall j :: 0 <= j < |s| ==> s[j] != 0
    ensures i + |s| < |mem| ==> mem[i + |s|] == 0
    decreases |mem| - i
  {
    if i == |mem| || mem[i] == 0 then [] else [mem[i]] + CString(mem, i + 1)
  }

  predicate NoNul(s: seq<u8>) {
    forall i :: 0 <= i < |s| ==> s[i] != 0
  }

  method StrLen(mem: seq<u8>, i: nat) returns (n: nat)
    requires i <= |mem|
    ensures n == |CString(mem, i)|
  {
    n := 0;
    while i + n < |mem| && mem[i + n] != 0
      invariant i + n <= |mem|
      invariant |CString(mem, i)| == n + |CString(mem, i + n)|
      decreases |mem| - i - n
    {
      n := n + 1;
    }
  }

  /** The first n bytes at i agree with str exactly when both strings do, as far as they have been compared. */
  lemma {:induction false} SamePrefix(mem: seq<u8>, i: nat, str: seq<u8>, n: nat)
    requires i + n <= |mem| && n <= |str| && NoNul(str)
    requires mem[i..i + n] == str[..n]
    ensures n <= |CString(mem, i)| && CString(mem, i)[..n] == str[..n]
    decreases n
  {
    if n > 0 {
      assert mem[i] == mem[i..i + n][0] == str[0];
      assert mem[i + 1..i + n] == mem[i..i + n][1..] == str[..n][1..] == str[1..][..n - 1];
      SamePrefix(mem, i + 1, str[1..], n - 1);
    }
  }

  /** strcmp(mem + i, str) == 0. */
  method StrEq(mem: seq<u8>, i: nat, str: seq<u8>) returns (eq: bool)
    requires i <= |mem| && NoNul(str)
    ensures eq <==> CString(mem, i) == str
  {
    var n := 0;
    ghost var s := CString(mem, i);
    while n < |str| && i + n < |mem| && mem[i + n] == str[n]
      invariant n <= |str| && i + n <= |mem|
      invariant mem[i..i + n] == str[..n]
    {
      assert mem[i..i + n + 1] == mem[i..i + n] + [mem[i + n]] && str[..n + 1] == str[..n] + [str[n]];
      n := n + 1;
    }
    SamePrefix(mem, i, str, n);
    eq := n == |str| && (i + n == |mem| || mem[i + n] == 0);
    if eq {
      assert |s| == n;
      assert s == s[..n];
    } else if n < |s| {
      assert s[n] == mem[i + n];
    }
  }

  /** The position of str among the strings of a list, or -1. */
  function ListIndex(list: seq<u8>, str: seq<u8>): (r: int)
    ensures -1 <= r
    decreases |list|
  {
    if list == [] then -1
    else
      var s := CString(list, 0);
      if s == str then 0
      else
        var r := ListIndex(AfterString(list), str);
        if r < 0 then -1 else r + 1
  }

  /** What follows the first string and its NUL. */
  function AfterString(list: seq<u8>): (rest: seq<u8>)
    requires list != []
    ensures |rest| < |list|
  {
    var n := |CString(list, 0)| + 1;
    if n <= |list| then list[n..] else []
  }

  lemma NextInList(list: seq<u8>, str: seq<u8>)
    requires list != []
    ensures CString(list, 0) == str ==> ListIndex(list, str) == 0
    ensures CString(list, 0) != str ==>
              ListIndex(list, str) == (if ListIndex(AfterString(list), str) < 0 then -1 else ListIndex(AfterString(list), str) + 1)
  {
  }

  lemma PastString(list: seq<u8>, n: nat)
    requires list != [] && n == |CString(list, 0)|
    ensures AfterString(list) == if n + 1 <= |list| then list[n + 1..] else []
    ensures |AfterString(list)| < |list|
  {
  }

  /** fdt_string_list_index. */
  method StringListIndex(value: seq<u8>, str: seq<u8>) returns (r: int)
    requires NoNul(str)
    ensures r == ListIndex(value, str)
  {
    var list := value;
    var index := 0;
    while list != []
      invariant ListIndex(value, str)
                == if ListIndex(list, str) < 0 then -1 else index + ListIndex(list, str)
      decreases |list|
    {
      NextInList(list, str);
      hide ListIndex, CString, NoNul, AfterString;
      var eq := StrEq(list, 0, str);
      if eq {
        return index;
      }
      index := index + 1;
      var n := StrLen(list, 0);
      PastString(list, n);
      list := if n + 1 <= |list| then list[n + 1..] else [];
    }
    r := -1;
  }

  /** A string list as the Devicetree Specification writes it: every string followed by a NUL. */
  function Joined(strs: seq<seq<u8>>): seq<u8> {
    if strs == [] then [] else strs[0] + [0] + Joined(strs[1..])
  }

  /** On such a list the first string equal to str is found, and none is found only if none is there. */
  lemma {:induction false} ListIndexFinds(strs: seq<seq<u8>>, str: seq<u8>)
    requires forall k :: 0 <= k < |strs| ==> NoNul(strs[k])
    ensures
      var r := ListIndex(Joined(strs), str);
      && -1 <= r < |strs|
      && (r >= 0 ==> strs[r] == str)
      && forall k :: 0 <= k < (if r < 0 then |strs| else r) ==> strs[k] != str
  {
    if strs != [] {
      FirstString(strs[0], Joined(strs[1..]));
      ListIndexFinds(strs[1..], str);
      var r := ListIndex(Joined(strs), str);
      forall k | 0 <= k < (if r < 0 then |strs| else r) ensures strs[k] != str {
        if k > 0 { assert strs[k] == strs[1..][k - 1]; }
      }
    }
  }

  lemma FirstString(s: seq<u8>, rest: seq<u8>)
    requires NoNul(s)
    ensures s + [0] + rest != []
    ensures CString(s + [0] + rest, 0) == s
    ensures AfterString(s + [0] + rest) == rest
  {
    var mem := s + [0] + rest;
    var t := CString(mem, 0);
    assert mem[|s|] == 0;
    assert forall j :: 0 <= j < |s| ==> mem[j] == s[j];
    assert forall j :: 0 <= j < |t| ==> mem[j] == t[j];
    assert |t| == |s|;
    assert t == s;
    assert mem[|s| + 1..] == rest;
  }

  // ----- any value as a list -----

  /** A value whose last string is not terminated ends there, as if it were. */
  function Terminated(value: seq<u8>): seq<u8> {
    if value == [] || value[|value| - 1] == 0 then value else value + [0]
  }

  predicate NulFree(strs: seq<seq<u8>>) {
    forall k :: 0 <= k < |strs| ==> NoNul(strs[k])
  }

  /** The strings of a value. */
  function Strings(value: seq<u8>): seq<seq<u8>>
    decreases |value|
  {
    if value == [] then [] else [CString(value, 0)] + Strings(AfterString(value))
  }

  /** Every value is the list of its strings, and no other list gives it. */
  lemma {:induction false} StringsJoined(value: seq<u8>)
    ensures NulFree(Strings(value)) && Joined(Strings(value)) == Terminated(value)
    decreases |value|
  {
    if value != [] {
      var s, rest := CString(value, 0), AfterString(value);
      StringsJoined(rest);
      FirstOfStrings(value);
      hide Strings, Joined, AfterString, CString;
      TerminatedParts(value, s, rest);
    }
  }

  lemma FirstOfStrings(value: seq<u8>)
    requires value != []
    ensures
      var s, rest := CString(value, 0), AfterString(value);
      && Strings(value) == [s] + Strings(rest) && NoNul(s)
      && Joined(Strings(value)) == s + [0] + Joined(Strings(rest))
      && (if |s| == |value| then s == value && rest == [] else value == s + [0] + rest)
  {
    var s, rest := CString(value, 0), AfterString(value);
    assert if |s| == |value| then s == value && rest == [] else value == s + [0] + rest by {
      if |s| < |value| { assert value == s + [0] + value[|s| + 1..]; }
    }
    assert NoNul(s);
    assert Strings(value) == [s] + Strings(rest);
    hide CString, AfterString, Strings;
    JoinedFirst(s, Strings(rest));
    hide Joined;
  }

  lemma JoinedFirst(s: seq<u8>, strs: seq<seq<u8>>)
    ensures Joined([s] + strs) == s + [0] + Joined(strs)
  {
    assert ([s] + strs)[1..] == strs;
  }

  lemma TerminatedParts(value: seq<u8>, s: seq<u8>, rest: seq<u8>)
    requires value != [] && NoNul(s) && (if |s| == |value| then s == value && rest == [] else value == s + [0] + rest)
    ensures Terminated(value) == s + [0] + Terminated(rest)
  {
    if s != value && rest != [] {
      assert rest[|rest| - 1] == value[|value| - 1];
    }
  }

  lemma {:induction false} IndexOfString(value: seq<u8>, str: seq<u8>)
    ensures 0 <= ListIndex(value, str) <==> str in Strings(value)
    decreases |value|
  {
    if value != [] {
      IndexOfString(AfterString(value), str);
    }
  }

  lemma {:induction false} JoinedUnique(strs: seq<seq<u8>>, strs': seq<seq<u8>>)
    requires NulFree(strs) && NulFree(strs') && Joined(strs) == Joined(strs')
    ensures strs == strs'
  {
    if strs != [] && strs' != [] {
      FirstString(strs[0], Joined(strs[1..]));
      FirstString(strs'[0], Joined(strs'[1..]));
      JoinedUnique(strs[1..], strs'[1..]);
      assert strs == [strs[0]] + strs[1..] && strs' == [strs'[0]] + strs'[1..];
    }
  }

  /** However a value is written as a list of NUL-terminated strings, the index is found if and only if str is one of them. */
  lemma ListIndexMeaning(value: seq<u8>, strs: seq<seq<u8>>, str: seq<u8>)
    requires NulFree(strs) && Joined(strs) == Terminated(value)
    ensures 0 <= ListIndex(value, str) <==> str in strs
  {
    StringsJoined(value);
    JoinedUnique(strs, Strings(value));
    IndexOfString(value, str);
  }
}
