/** NUL-separated reply lists: make_strings_list of afc.c and split("\x00") of iafctools.rb. */
module AfcStrings {
  import opened Bytes
  import opened Options

  predicate NulFree(s: seq<byte>) {
    forall i :: 0 <= i < |s| ==> s[i] != 0
  }

  predicate AllNulFree(list: seq<seq<byte>>) {
    forall i :: 0 <= i < |list| ==> NulFree(list[i])
  }

  /** The strings one after the other, each with its terminator. */
  function Terminated(list: seq<seq<byte>>): (s: seq<byte>) {
    if list == [] then [] else list[0] + [0] + Terminated(list[1..])
  }

  /** list is what tokens holds: its terminated strings, then possibly an unterminated piece. */
  ghost predicate Holds(tokens: seq<byte>, list: seq<seq<byte>>) {
    AllNulFree(list) && Terminated(list) <= tokens && NulFree(tokens[|Terminated(list)|..])
  }

  function Nulls(s: seq<byte>): (n: nat) {
    if s == [] then 0 else (if s[0] == 0 then 1 else 0) + Nulls(s[1..])
  }

  /** count_nullspaces */
  method CountNullspaces(s: seq<byte>) returns (nulls: nat)
    ensures nulls == Nulls(s)
  {
    nulls := 0;
    var i := 0;
    assert s[0..] == s;
    while i < |s|
      invariant i <= |s| && nulls + Nulls(s[i..]) == Nulls(s)
    {
      assert s[i..][1..] == s[i + 1..];
      if s[i] == 0 {
        nulls := nulls + 1;
      }
      i := i + 1;
    }
  }

  /** strlen of the string at the front. */
  method StrLen(s: seq<byte>) returns (n: nat)
    requires Nulls(s) > 0
    ensures n < |s| && s[n] == 0 && NulFree(s[..n]) && Nulls(s[n + 1..]) == Nulls(s) - 1
  {
    n := 0;
    assert s[0..] == s;
    while s[n] != 0
      invariant n < |s| && NulFree(s[..n]) && Nulls(s[n..]) == Nulls(s)
      decreases |s| - n
    {
      assert s[n..][1..] == s[n + 1..];
      NoneLeft(s[n + 1..]);
      n := n + 1;
    }
    assert s[n..][1..] == s[n + 1..];
  }

  lemma {:induction false} NoneLeft(s: seq<byte>)
    ensures Nulls(s) == 0 <==> NulFree(s)
  {
    if s != [] {
      NoneLeft(s[1..]);
      assert forall i :: 0 < i < |s| ==> s[i] == s[1..][i - 1];
    }
  }

  /** make_strings_list; None stands for the NULL it returns without data. */
  method MakeStringsList(tokens: seq<byte>) returns (list: Option<seq<seq<byte>>>)
    ensures list.None? <==> tokens == []
    ensures list.Some? ==> Holds(tokens, list.value)
  {
    if tokens == [] {
      return None;
    }
    var nulls := CountNullspaces(tokens);
    var strings: seq<seq<byte>> := [];
    var i, j := 0, 0;
    assert tokens[0..] == tokens;
    while i < nulls
      invariant i <= nulls && j <= |tokens| && Nulls(tokens[j..]) == nulls - i
      invariant AllNulFree(strings) && Terminated(strings) == tokens[..j]
    {
      var n := StrLen(tokens[j..]);
      TerminatedAppend(strings, tokens[j..][..n]);
      assert tokens[..j + n + 1] == tokens[..j] + tokens[j..][..n] + [0];
      assert tokens[j..][n + 1..] == tokens[j + n + 1..];
      strings := strings + [tokens[j..][..n]];
      j := j + n + 1;
      i := i + 1;
    }
    NoneLeft(tokens[j..]);
    return Some(strings);
  }

  lemma {:induction false} TerminatedAppend(list: seq<seq<byte>>, s: seq<byte>)
    ensures Terminated(list + [s]) == Terminated(list) + s + [0]
  {
    if list == [] {
      assert list + [s] == [s] && [s][1..] == [];
    } else {
      TerminatedAppend(list[1..], s);
      assert (list + [s])[1..] == list[1..] + [s];
    }
  }

  /** The list is determined by the reply. */
  lemma {:induction false} HoldsUnique(tokens: seq<byte>, a: seq<seq<byte>>, b: seq<seq<byte>>)
    requires Holds(tokens, a) && Holds(tokens, b)
    ensures a == b
    decreases |a|
  {
    if a == [] || b == [] {
      HoldsNothing(tokens, a);
      HoldsNothing(tokens, b);
    } else {
      FirstString(tokens, a);
      FirstString(tokens, b);
      var m, n := |a[0]|, |b[0]|;
      FirstNul(tokens, m, n);
      HoldsUnique(tokens[m + 1..], a[1..], b[1..]);
      assert a == [a[0]] + a[1..] && b == [b[0]] + b[1..];
    }
  }

  lemma {:induction false} HoldsNothing(tokens: seq<byte>, a: seq<seq<byte>>)
    requires Holds(tokens, a)
    ensures a == [] <==> NulFree(tokens)
  {
    if a != [] {
      FirstString(tokens, a);
      assert tokens[|a[0]|] == 0;
    } else {
      assert tokens[0..] == tokens;
    }
  }

  lemma {:induction false} FirstString(tokens: seq<byte>, a: seq<seq<byte>>)
    requires Holds(tokens, a) && a != []
    ensures |a[0]| < |tokens| && tokens[..|a[0]|] == a[0] && tokens[|a[0]|] == 0 && NulFree(a[0])
    ensures Holds(tokens[|a[0]| + 1..], a[1..])
  {
    var m, t := |a[0]| + 1, Terminated(a);
    assert t == a[0] + [0] + Terminated(a[1..]);
    assert tokens[..|t|] == t && t[..m - 1] == a[0] && t[m - 1] == 0 && t[m..] == Terminated(a[1..]);
    assert tokens[m..][..|t| - m] == t[m..];
    assert tokens[m..][|t| - m..] == tokens[|t|..];
  }

  lemma {:induction false} FirstNul(s: seq<byte>, m: nat, n: nat)
    requires m < |s| && n < |s| && s[m] == 0 && s[n] == 0 && NulFree(s[..m]) && NulFree(s[..n])
    ensures m == n
  {
    assert forall i :: 0 <= i < m ==> s[i] == s[..m][i];
    assert forall i :: 0 <= i < n ==> s[i] == s[..n][i];
  }

  /** A device that sends NUL-free strings, each terminated, gets exactly those into the list, and an
      unterminated rest is dropped. */
  lemma {:induction false} ListRoundTrip(strings: seq<seq<byte>>, rest: seq<byte>, list: seq<seq<byte>>)
    requires AllNulFree(strings) && NulFree(rest)
    requires Holds(Terminated(strings) + rest, list)
    ensures list == strings
  {
    assert (Terminated(strings) + rest)[|Terminated(strings)|..] == rest;
    HoldsUnique(Terminated(strings) + rest, list, strings);
  }

  // ---------------------------------------------------------------- Ruby's split

  /** The pieces between separators, the last one unterminated. */
  function Pieces(s: seq<byte>, current: seq<byte>): (r: seq<seq<byte>>)
    decreases |s|
  {
    if s == [] then [current]
    else if s[0] == 0 then [current] + Pieces(s[1..], [])
    else Pieces(s[1..], current + [s[0]])
  }

  function DropEmptyTail(list: seq<seq<byte>>): (r: seq<seq<byte>>) {
    if list != [] && list[|list| - 1] == [] then DropEmptyTail(list[..|list| - 1]) else list
  }

  /** split("\x00"), which drops empty strings at the end. */
  function RubySplit(s: seq<byte>): (r: seq<seq<byte>>) {
    if s == [] then [] else DropEmptyTail(Pieces(s, []))
  }

  lemma {:induction false} PiecesRun(s: seq<byte>, current: seq<byte>, rest: seq<byte>)
    requires NulFree(s)
    ensures Pieces(s + [0] + rest, current) == [current + s] + Pieces(rest, [])
    decreases |s|
  {
    if s == [] {
      assert s + [0] + rest == [0] + rest && current + s == current;
    } else {
      PiecesRun(s[1..], current + [s[0]], rest);
      assert (s + [0] + rest)[1..] == s[1..] + [0] + rest;
      assert current + s == (current + [s[0]]) + s[1..];
    }
  }

  lemma {:induction false} PiecesOfUnterminated(s: seq<byte>, current: seq<byte>)
    requires NulFree(s)
    ensures Pieces(s, current) == [current + s]
    decreases |s|
  {
    if s == [] {
      assert current + s == current;
    } else {
      PiecesOfUnterminated(s[1..], current + [s[0]]);
      assert current + s == (current + [s[0]]) + s[1..];
    }
  }

  lemma {:induction false} PiecesOfReply(list: seq<seq<byte>>, rest: seq<byte>)
    requires AllNulFree(list) && NulFree(rest)
    ensures Pieces(Terminated(list) + rest, []) == list + [rest]
    decreases |list|
  {
    if list == [] {
      PiecesOfUnterminated(rest, []);
      assert Terminated(list) + rest == rest && [] + rest == rest;
    } else {
      var tail := Terminated(list[1..]) + rest;
      PiecesRun(list[0], [], tail);
      PiecesOfReply(list[1..], rest);
      assert Terminated(list) + rest == list[0] + [0] + tail && [] + list[0] == list[0];
      assert list + [rest] == [list[0]] + (list[1..] + [rest]);
    }
  }

  lemma {:induction false} DropShortens(list: seq<seq<byte>>)
    ensures |DropEmptyTail(list)| <= |list|
  {
    if list != [] && list[|list| - 1] == [] {
      DropShortens(list[..|list| - 1]);
    }
  }

  /** The pieces of what is left of a reply behind its first k bytes: the piece k lies in is cut, the
      pieces before are gone. */
  lemma {:induction false} PiecesBehind(list: seq<seq<byte>>, rest: seq<byte>, k: nat) returns (m: nat, cut: nat)
    requires AllNulFree(list) && NulFree(rest) && k <= |Terminated(list)| + |rest|
    ensures var all := list + [rest];
      && m <= |list| && cut <= |all[m]| && k == |Terminated(list[..m])| + cut
      && Pieces((Terminated(list) + rest)[k..], []) == [all[m][cut..]] + all[m + 1..]
    decreases |list|
  {
    var s := Terminated(list) + rest;
    if list == [] || k <= |list[0]| {
      WithinFirst(list, rest, k);
      assert list[..0] == [];
      return 0, k;
    }
    var tail := Terminated(list[1..]) + rest;
    FirstApart(list, rest);
    Behind(list[0], tail, s, k);
    m, cut := PiecesBehind(list[1..], rest, k - |list[0]| - 1);
    PrefixGrows(list, m);
    Shifted(list, rest, m);
    m := m + 1;
  }

  lemma {:induction false} Behind(first: seq<byte>, tail: seq<byte>, s: seq<byte>, k: nat)
    requires |first| < k <= |s| && s == first + [0] + tail
    ensures s[k..] == tail[k - |first| - 1..]
  {
  }

  lemma {:induction false} Shifted(list: seq<seq<byte>>, rest: seq<byte>, m: nat)
    requires list != [] && m < |list|
    ensures (list + [rest])[m + 1] == (list[1..] + [rest])[m]
    ensures (list + [rest])[m + 2..] == (list[1..] + [rest])[m + 1..]
  {
  }

  lemma {:induction false} WithinFirst(list: seq<seq<byte>>, rest: seq<byte>, k: nat)
    requires AllNulFree(list) && NulFree(rest) && k <= |(list + [rest])[0]|
    ensures var all := list + [rest]; Pieces((Terminated(list) + rest)[k..], []) == [all[0][k..]] + all[1..]
  {
    if list == [] {
      assert Terminated(list) + rest == rest && (list + [rest])[1..] == [] && [] + rest[k..] == rest[k..];
      PiecesOfUnterminated(rest[k..], []);
    } else {
      FirstApart(list, rest);
      InFirst(list[0], Terminated(list[1..]) + rest, Terminated(list) + rest, k);
      PiecesOfReply(list[1..], rest);
    }
  }

  lemma {:induction false} FirstApart(list: seq<seq<byte>>, rest: seq<byte>)
    requires list != []
    ensures Terminated(list) + rest == list[0] + [0] + (Terminated(list[1..]) + rest)
    ensures (list + [rest])[0] == list[0] && (list + [rest])[1..] == list[1..] + [rest]
  {
  }

  lemma {:induction false} InFirst(first: seq<byte>, tail: seq<byte>, s: seq<byte>, k: nat)
    requires NulFree(first) && k <= |first| && s == first + [0] + tail
    ensures Pieces(s[k..], []) == [first[k..]] + Pieces(tail, [])
  {
    assert s[k..] == first[k..] + [0] + tail && [] + first[k..] == first[k..];
    PiecesRun(first[k..], [], tail);
  }

  lemma {:induction false} PrefixGrows(list: seq<seq<byte>>, m: nat)
    requires list != [] && m < |list|
    ensures |Terminated(list[..m + 1])| == |list[0]| + 1 + |Terminated(list[1..][..m])|
  {
    assert list[..m + 1][1..] == list[1..][..m];
  }

  /** The coincidence of a reply whose unterminated rest comes again and again: all strings but the
      first are the rest, the first is an end of it, and the bytes cut off are one more than the rest. */
  predicate Repeats(list: seq<seq<byte>>, rest: seq<byte>, k: nat) {
    && list != [] && rest != [] && k == |rest| + 1
    && |list[0]| <= |rest| && list[0] == rest[|rest| - |list[0]|..]
    && forall i :: 1 <= i < |list| ==> list[i] == rest
  }

  /** Both lists are empty; or nothing is cut off, nothing is unterminated and the last string is not
      empty; or the reply repeats itself. */
  predicate Alike(list: seq<seq<byte>>, rest: seq<byte>, k: nat) {
    if k >= |Terminated(list)| + |rest| then list == []
    else Repeats(list, rest, k) || (k == 0 && rest == [] && list != [] && list[|list| - 1] != [])
  }

  /** C splits a whole reply, Ruby what is left behind its first k bytes. */
  lemma {:induction false} SplitsAgree(list: seq<seq<byte>>, rest: seq<byte>, k: nat)
    requires AllNulFree(list) && NulFree(rest) && k <= |Terminated(list)| + |rest|
    ensures RubySplit((Terminated(list) + rest)[k..]) == list <==> Alike(list, rest, k)
  {
    var s := Terminated(list) + rest;
    if k < |s| {
      var m, cut := PiecesBehind(list, rest, k);
      if rest == [] {
        TerminatedRest(list, k, m, cut);
      } else {
        UnterminatedRest(list, rest, k, m, cut);
      }
    }
  }

  lemma {:induction false} TerminatedRest(list: seq<seq<byte>>, k: nat, m: nat, cut: nat)
    requires k < |Terminated(list)| && m <= |list|
    requires var all := list + [[]]; cut <= |all[m]| && k == |Terminated(list[..m])| + cut
    ensures list != []
    ensures DropEmptyTail([(list + [[]])[m][cut..]] + (list + [[]])[m + 1..]) == list
      <==> k == 0 && list[|list| - 1] != []
  {
    assert list[..|list|] == list;
    assert m < |list|;
    var pieces := [list[m][cut..]] + list[m + 1..];
    assert [(list + [[]])[m][cut..]] + (list + [[]])[m + 1..] == pieces + [[]];
    assert (pieces + [[]])[..|pieces|] == pieces;
    DropShortens(pieces);
    if m == 0 && cut == 0 {
      assert list[..0] == [] && pieces == list;
      if list[|list| - 1] == [] {
        DropShortens(list[..|list| - 1]);
      }
    } else if m == 0 {
      assert pieces[0] != list[0];
      DropShortens(pieces[..|pieces| - 1]);
    } else {
      PrefixGrows(list, m - 1);
    }
  }

  lemma {:induction false} UnterminatedRest(list: seq<seq<byte>>, rest: seq<byte>, k: nat, m: nat, cut: nat)
    requires rest != [] && k < |Terminated(list)| + |rest| && m <= |list|
    requires var all := list + [rest]; cut <= |all[m]| && k == |Terminated(list[..m])| + cut
    ensures DropEmptyTail([(list + [rest])[m][cut..]] + (list + [rest])[m + 1..]) == list <==> Repeats(list, rest, k)
  {
    var all := list + [rest];
    var pieces := [all[m][cut..]] + all[m + 1..];
    assert list[..|list|] == list;
    assert pieces[|pieces| - 1] != [];
    assert DropEmptyTail(pieces) == pieces;
    if m == 1 {
      PrefixGrows(list, 0);
      OnePieceLess(list, rest, k, cut);
    } else if Repeats(list, rest, k) {
      NotElsewhere(list, rest, k, m, cut);
    }
  }

  lemma {:induction false} AllRest(list: seq<seq<byte>>, rest: seq<byte>, i: nat)
    requires 1 <= i <= |list| && forall j :: 1 <= j < |list| ==> list[j] == (list + [rest])[j + 1]
    ensures (list + [rest])[i] == rest
    decreases |list| - i
  {
    if i < |list| {
      AllRest(list, rest, i + 1);
    }
  }

  lemma {:induction false} NotElsewhere(list: seq<seq<byte>>, rest: seq<byte>, k: nat, m: nat, cut: nat)
    requires Repeats(list, rest, k) && m <= |list|
    requires cut <= |(list + [rest])[m]| && k == |Terminated(list[..m])| + cut
    ensures m == 1
  {
    if m >= 2 {
      PrefixGrows(list, m - 1);
      PrefixGrows(list[1..], m - 2);
    }
  }

  lemma {:induction false} OnePieceLess(list: seq<seq<byte>>, rest: seq<byte>, k: nat, cut: nat)
    requires list != [] && rest != []
    requires var all := list + [rest]; cut <= |all[1]| && k == |list[0]| + 1 + cut
    ensures var all := list + [rest]; [all[1][cut..]] + all[2..] == list <==> Repeats(list, rest, k)
  {
    var all := list + [rest];
    var pieces := [all[1][cut..]] + all[2..];
    if pieces == list {
      assert forall i :: 1 <= i < |list| ==> list[i] == pieces[i] == all[i + 1];
      AllRest(list, rest, 1);
      forall i | 1 <= i < |list| ensures list[i] == rest {
        AllRest(list, rest, i);
      }
      assert list[0] == pieces[0];
    } else if Repeats(list, rest, k) {
      assert all[1] == rest;
      assert pieces[0] == list[0];
      assert forall i :: 1 <= i < |list| ==> pieces[i] == all[i + 1] == rest == list[i];
    }
  }
}
