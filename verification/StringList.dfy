/** Splitting a buffer of NUL-terminated strings into a list. */
module StringList {
  import opened Bytes

  predicate NoNul(s: seq<byte>) {
    forall i | 0 <= i < |s| :: s[i] != 0
  }

  /** How many NULs s has. */
  function Nulls(s: seq<byte>): nat {
    if s == [] then 0 else (if s[0] == 0 then 1 else 0) + Nulls(s[1..])
  }

  /** `strlen`: where the first NUL is, or the end if there is none. */
  function Length(s: seq<byte>): (n: nat)
    ensures n <= |s| && (n < |s| ==> s[n] == 0) && forall i | 0 <= i < n :: s[i] != 0
  {
    if s == [] || s[0] == 0 then 0 else 1 + Length(s[1..])
  }

  /** The terminated strings of s, in order; bytes behind the last NUL belong to none. */
  function Split(s: seq<byte>): seq<seq<byte>>
    decreases |s|
  {
    var n := Length(s);
    if n == |s| then [] else [s[..n]] + Split(s[n + 1..])
  }

  /** The strings with their terminators, one after the other. */
  function Join(list: seq<seq<byte>>): seq<byte> {
    if list == [] then [] else list[0] + [0] + Join(list[1..])
  }

  /** Counting the NULs from the first one on. */
  lemma {:induction false} NullsFromFirst(s: seq<byte>)
    ensures Nulls(s) == if Length(s) == |s| then 0 else 1 + Nulls(s[Length(s) + 1..])
    decreases |s|
  {
    if s != [] && s[0] != 0 {
      NullsFromFirst(s[1..]);
      if Length(s) < |s| {
        assert s[1..][Length(s[1..]) + 1..] == s[Length(s) + 1..];
      }
    }
  }

  /** There are as many strings as NULs, and none of them has one inside. */
  lemma {:induction false} SplitCounts(s: seq<byte>)
    ensures |Split(s)| == Nulls(s) && forall i | 0 <= i < |Split(s)| :: NoNul(Split(s)[i])
    decreases |s|
  {
    NullsFromFirst(s);
    if Length(s) < |s| {
      SplitCounts(s[Length(s) + 1..]);
    }
  }

  /** Joining the strings again gives the buffer up to its last NUL. */
  lemma {:induction false} JoinSplit(s: seq<byte>)
    ensures Join(Split(s)) <= s && NoNul(s[|Join(Split(s))|..])
    decreases |s|
  {
    var n := Length(s);
    if n < |s| {
      var rest := s[n + 1..];
      JoinSplit(rest);
      assert Split(s)[1..] == Split(rest);
      var joined := Join(Split(rest));
      assert Join(Split(s)) == s[..n] + [0] + joined;
      PrefixOn(s, n, rest, joined);
    }
  }

  lemma PrefixOn(s: seq<byte>, n: nat, rest: seq<byte>, joined: seq<byte>)
    requires n < |s| && s[n] == 0 && rest == s[n + 1..] && joined <= rest
    ensures s[..n] + [0] + joined <= s && s[n + 1 + |joined|..] == rest[|joined|..]
  {
  }

  /** The first NUL is where the length says. */
  lemma {:induction false} LengthIs(s: seq<byte>, n: nat)
    requires n <= |s| && (n < |s| ==> s[n] == 0) && forall k | 0 <= k < n :: s[k] != 0
    ensures Length(s) == n
    decreases n
  {
    if n > 0 {
      LengthIs(s[1..], n - 1);
    }
  }

  /** Splitting undoes joining, for every list of strings and every unterminated rest. */
  lemma {:induction false} SplitJoin(list: seq<seq<byte>>, rest: seq<byte>)
    requires NoNul(rest) && forall i | 0 <= i < |list| :: NoNul(list[i])
    ensures Split(Join(list) + rest) == list
    decreases |list|
  {
    if list == [] {
      assert Join(list) + rest == rest;
      LengthIs(rest, |rest|);
    } else {
      var more := Join(list[1..]) + rest;
      var all := list[0] + [0] + more;
      assert Join(list) + rest == all;
      assert NoNul(list[0]);
      LengthIs(all, |list[0]|);
      assert all[..|list[0]|] == list[0] && all[|list[0]| + 1..] == more;
      SplitJoin(list[1..], rest);
    }
  }

  /** `count_nullspaces` */
  method CountNulls(s: seq<byte>) returns (nulls: nat)
    ensures nulls == Nulls(s)
  {
    nulls := 0;
    assert s[0..] == s;
    for i := 0 to |s|
      invariant nulls + Nulls(s[i..]) == Nulls(s)
    {
      assert s[i..][1..] == s[i + 1..];
      if s[i] == 0 {
        nulls := nulls + 1;
      }
    }
  }

  /** `strdup(tokens + j)`: a copy up to the next NUL, which must come before the end of the buffer. */
  method Duplicate(tokens: seq<byte>, j: nat) returns (copy: seq<byte>)
    requires j <= |tokens| && Length(tokens[j..]) < |tokens| - j
    ensures copy == tokens[j..][..Length(tokens[j..])]
  {
    ghost var s := tokens[j..];
    var n := 0;
    while tokens[j + n] != 0
      invariant n <= Length(s) && j + Length(s) < |tokens|
      decreases Length(s) - n
    {
      assert s[n] == tokens[j + n] != s[Length(s)];
      n := n + 1;
    }
    assert s[n] == tokens[j + n];
    assert tokens[j..j + n] == s[..n];
    copy := tokens[j..j + n];
  }

  /** `make_strings_list`: null for an empty buffer, else the strings with a terminating None; no read goes past the
      end of the buffer. */
  method MakeStringsList(tokens: seq<byte>) returns (list: array?<Option<seq<byte>>>)
    ensures tokens == [] <==> list == null
    ensures list != null ==>
      && fresh(list) && list.Length == |Split(tokens)| + 1 && list[list.Length - 1] == None
      && forall i | 0 <= i < |Split(tokens)| :: list[i] == Some(Split(tokens)[i])
  {
    SplitCounts(tokens);
    hide Split, Length;
    if |tokens| == 0 {
      return null;
    }
    var nulls := CountNulls(tokens);
    list := new Option<seq<byte>>[nulls + 1](_ => None);
    var j: nat := 0;
    ghost var done, left := [], Split(tokens);
    assert tokens[0..] == tokens && done + left == left;
    for i := 0 to nulls
      invariant |done| == i && |left| == nulls - i && done + left == Split(tokens)
      invariant j <= |tokens| && left == Split(tokens[j..])
      invariant forall k | 0 <= k < i :: list[k] == Some(done[k])
    {
      var s, next := NextString(tokens, j);
      list[i] := Some(s);
      j := next;
      Shift(done, left);
      done, left := done + [s], left[1..];
    }
    list[nulls] := None;
    assert done == Split(tokens);
  }

  method NextString(tokens: seq<byte>, j: nat) returns (s: seq<byte>, next: nat)
    requires j <= |tokens| && Split(tokens[j..]) != []
    ensures next <= |tokens| && [s] + Split(tokens[next..]) == Split(tokens[j..])
  {
    hide Split, Length;
    FirstString(tokens, j);
    s := Duplicate(tokens, j);
    next := j + |s| + 1;
    ghost var all := Split(tokens[j..]);
    assert all == [all[0]] + all[1..];
  }

  lemma Shift(done: seq<seq<byte>>, left: seq<seq<byte>>)
    requires left != []
    ensures done + [left[0]] + left[1..] == done + left && left == [left[0]] + left[1..]
  {
  }

  /** The first of the strings that are left. */
  lemma FirstString(tokens: seq<byte>, j: nat)
    requires j <= |tokens| && Split(tokens[j..]) != []
    ensures var n := Length(tokens[j..]);
      && n < |tokens| - j
      && Split(tokens[j..])[0] == tokens[j..][..n]
      && Split(tokens[j..])[1..] == Split(tokens[j + n + 1..])
  {
    var rest := tokens[j..];
    var n := Length(rest);
    assert rest[n + 1..] == tokens[j + n + 1..];
  }
}
