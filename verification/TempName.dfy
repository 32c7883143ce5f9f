/** `_zip_mkstemp` where the system has no `_mktemp`: a file name ending in X's is filled in, and counted up like an
    odometer until a file of that name can be created. */
module TempName {
  import opened Bytes

  /** What `open(path, O_CREAT|O_EXCL|...)` says. */
  datatype Creation = Created | Exists | Refused

  /** The characters the suffix is made of. */
  predicate IsWheel(c: char) {
    '0' <= c <= '9' || 'a' <= c <= 'z'
  }

  /** A digit is worth 0, the letters are worth 1 to 26. */
  function Value(c: char): (v: nat)
    requires IsWheel(c)
    ensures v <= 26
  {
    if '0' <= c <= '9' then 0 else (c - 'a') as int + 1
  }

  predicate Wheels(s: seq<char>) {
    forall i | 0 <= i < |s| :: IsWheel(s[i])
  }

  /** The next position of a wheel that is not at 'z'. */
  function Up(c: char): (r: char)
    requires IsWheel(c) && c != 'z'
    ensures IsWheel(r) && Value(r) == Value(c) + 1
  {
    if '0' <= c <= '9' then 'a' else (c as int + 1) as char
  }

  /** The suffix as a number: the first wheel counts single steps, each further wheel 26 times the one before. */
  function Total(s: seq<char>): nat
    requires Wheels(s)
  {
    if s == [] then 0 else Value(s[0]) + 26 * Total(s[1..])
  }

  /** The highest number that n wheels show. */
  function Highest(n: nat): nat {
    if n == 0 then 0 else 26 + 26 * Highest(n - 1)
  }

  lemma {:induction false} TotalBounded(s: seq<char>)
    requires Wheels(s)
    ensures Total(s) <= Highest(|s|)
    ensures Total(s) == Highest(|s|) <==> forall i | 0 <= i < |s| :: s[i] == 'z'
  {
    if s != [] {
      TotalBounded(s[1..]);
      assert forall i | 0 < i < |s| :: s[i] == s[1..][i - 1];
    }
  }

  /** One step of the wheels; None when the last one has gone round. */
  function Advance(s: seq<char>): (r: Option<seq<char>>)
    requires Wheels(s)
    ensures r.Some? ==> |r.value| == |s| && Wheels(r.value)
  {
    if s == [] then None
    else if s[0] == 'z' then
      match Advance(s[1..])
      case None => None
      case Some(rest) => Some(['a'] + rest)
    else Some([Up(s[0])] + s[1..])
  }

  /** Each step raises the total by exactly one, and only the highest total has no next. */
  lemma {:induction false} AdvanceCounts(s: seq<char>)
    requires Wheels(s)
    ensures match Advance(s)
            case Some(r) => Total(r) == Total(s) + 1
            case None => Total(s) == Highest(|s|)
  {
    if s != [] {
      if s[0] == 'z' {
        AdvanceCounts(s[1..]);
      }
      var r := Advance(s);
      if r.Some? {
        if s[0] != 'z' {
          assert r.value[1..] == s[1..];
        } else {
          assert r.value[1..] == Advance(s[1..]).value;
        }
      }
    }
  }

  /** The names tried one after the other from s on. */
  ghost predicate Tried(s: seq<char>, names: seq<seq<char>>) {
    && names != [] && names[0] == s
    && (forall k | 0 <= k < |names| :: Wheels(names[k]) && |names[k]| == |s|)
    && forall k | 0 <= k < |names| - 1 :: Advance(names[k]) == Some(names[k + 1])
  }

  lemma {:induction false} TriedTotals(s: seq<char>, names: seq<seq<char>>, k: nat)
    requires Tried(s, names) && k < |names|
    ensures Total(names[k]) == Total(s) + k
  {
    if k > 0 {
      TriedTotals(s, names, k - 1);
      AdvanceCounts(names[k - 1]);
    }
  }

  /** No name is tried twice, and there are only so many. */
  lemma NoneTriedTwice(s: seq<char>, names: seq<seq<char>>)
    requires Tried(s, names)
    ensures forall j, k | 0 <= j < k < |names| :: names[j] != names[k]
    ensures |names| <= Highest(|s|) - Total(s) + 1
  {
    forall j, k | 0 <= j < k < |names|
      ensures names[j] != names[k]
    {
      TriedTotals(s, names, j);
      TriedTotals(s, names, k);
    }
    TriedTotals(s, names, |names| - 1);
    TotalBounded(names[|names| - 1]);
  }

  /** The static part of the suffix, different from call to call. */
  datatype Extra = Extra(first: char, second: char)

  /** The next value of `xtra`. */
  function NextExtra(x: Extra): Extra
    requires 'a' <= x.first <= 'z' && 'a' <= x.second <= 'z'
  {
    if x.first != 'z' then x.(first := (x.first as int + 1) as char)
    else Extra('a', if x.second != 'z' then (x.second as int + 1) as char else 'a')
  }

  /** The letters count from call to call, the first one fastest, and start again after 676 calls. */
  lemma ExtraCounts(x: Extra)
    requires 'a' <= x.first <= 'z' && 'a' <= x.second <= 'z'
    ensures var y := NextExtra(x);
      && 'a' <= y.first <= 'z' && 'a' <= y.second <= 'z'
      && (y.first - 'a') as int + 26 * (y.second - 'a') as int
         == ((x.first - 'a') as int + 26 * (x.second - 'a') as int + 1) % 676
  {
  }

  /** How many X's a path ends in. */
  function TrailingX(path: seq<char>): (n: nat)
    ensures n <= |path| && forall i | |path| - n <= i < |path| :: path[i] == 'X'
    ensures n < |path| ==> path[|path| - n - 1] != 'X'
  {
    if path == [] || path[|path| - 1] != 'X' then 0 else 1 + TrailingX(path[..|path| - 1])
  }

  /** How many letters stand behind the digits. */
  function Extras(xcnt: nat): (e: nat)
    ensures e <= xcnt
  {
    if xcnt > 6 then 2 else if xcnt > 0 then 1 else 0
  }

  /** The last n decimal digits of a process id, with zeros to the left. */
  function PidDigits(pid: nat, n: nat): (s: seq<char>)
    ensures |s| == n && Wheels(s)
    decreases n
  {
    if n == 0 then [] else PidDigits(pid / 10, n - 1) + [Digit(pid % 10)]
  }

  function PowerOfTen(n: nat): (p: nat)
    ensures p > 0
  {
    if n == 0 then 1 else 10 * PowerOfTen(n - 1)
  }

  /** The number that decimal digits show. */
  function Decimal(s: seq<char>): int {
    if s == [] then 0 else 10 * Decimal(s[..|s| - 1]) + (s[|s| - 1] as int - '0' as int)
  }

  /** They show the last n digits of the process id. */
  lemma {:induction false} PidShown(pid: nat, n: nat)
    ensures Decimal(PidDigits(pid, n)) == pid % PowerOfTen(n)
    ensures forall c <- PidDigits(pid, n) :: '0' <= c <= '9'
  {
    if n > 0 {
      PidShown(pid / 10, n - 1);
      var s := PidDigits(pid, n);
      assert s[..n - 1] == PidDigits(pid / 10, n - 1);
      LastDigitsSplit(pid, PowerOfTen(n - 1));
    }
  }

  lemma LastDigitsSplit(pid: nat, p: nat)
    requires p > 0
    ensures pid % (10 * p) == 10 * (pid / 10 % p) + pid % 10
  {
    var q, r := pid / 10, pid % 10;
    var a, b := q / p, q % p;
    assert pid == 10 * (a * p + b) + r == (10 * p) * a + (10 * b + r);
    assert 10 * b + r < 10 * p;
    Rest(pid, 10 * p, a, 10 * b + r);
  }

  lemma Rest(x: nat, d: nat, q: nat, r: nat)
    requires x == d * q + r && r < d
    ensures x % d == r
  {
    var k := q - x / d;
    assert d * k == d * q - d * (x / d);
    AtLeastOnce(d, k);
  }

  lemma AtLeastOnce(d: int, k: int)
    requires d >= 0
    ensures k == 0 || d * k >= d || d * k <= -d
  {
    if k > 0 {
      assert d * k == d + d * (k - 1);
    } else if k < 0 {
      assert d * k == -d - d * (-k - 1);
    }
  }

  lemma WheelsJoin(a: seq<char>, b: seq<char>)
    requires Wheels(a) && Wheels(b)
    ensures Wheels(a + b)
  {
  }

  class TempNames {
    /** `xtra` */
    var xtra: Extra

    constructor ()
      ensures xtra == Extra('a', 'a')
    {
      xtra := Extra('a', 'a');
    }

    /** The first loop: counts the X's the path ends in. */
    method CountX(path: array<char>) returns (xcnt: nat)
      ensures xcnt == TrailingX(path[..])
    {
      xcnt := 0;
      for i := 0 to path.Length
        invariant xcnt == TrailingX(path[..i])
      {
        assert path[..i + 1][..i] == path[..i];
        xcnt := if path[i] == 'X' then xcnt + 1 else 0;
      }
      assert path[..path.Length] == path[..];
    }

    /** Replaces the trailing X's: one or two letters at the very end, process id digits before them. Returns where
        the suffix starts. Something other than an X must come before them. */
    method FillIn(path: array<char>, pid: nat) returns (start: nat)
      requires TrailingX(path[..]) < path.Length
      requires 'a' <= xtra.first <= 'z' && 'a' <= xtra.second <= 'z'
      modifies this, path
      ensures start == path.Length - TrailingX(old(path[..]))
      ensures path[..start] == old(path[..start]) && Wheels(path[start..])
      ensures start < path.Length ==> path[path.Length - 1] == old(xtra.first)
      ensures path.Length - start > 6 ==> path[path.Length - 2] == old(xtra.second)
      ensures var n := path.Length - start; path[start..path.Length - Extras(n)] == PidDigits(pid, n - Extras(n))
      ensures xtra == NextExtra(old(xtra))
    {
      hide PidDigits, TrailingX;
      ghost var before := path[..];
      var xcnt := CountX(path);
      start := path.Length - xcnt;
      assert before[start - 1] != 'X' && forall i | start <= i < path.Length :: before[i] == 'X';
      var end := PutLetters(path, xcnt);
      ghost var letters := path[end..];
      assert Wheels(letters);
      assert xcnt > 0 ==> letters[|letters| - 1] == xtra.first;
      assert xcnt > 6 ==> letters[|letters| - 2] == xtra.second;
      PutDigits(path, start, end, pid);
      xtra := NextExtra(xtra);
      assert path[end..] == letters && forall i | end <= i < path.Length :: path[i] == letters[i - end];
      WheelsJoin(path[start..end], letters);
      assert path[start..] == path[start..end] + letters;
    }

    /** One letter at the end, and a second one before it if there are more than six X's. */
    method PutLetters(path: array<char>, xcnt: nat) returns (trv: nat)
      requires xcnt < path.Length && forall i | path.Length - xcnt <= i < path.Length :: path[i] == 'X'
      requires path[path.Length - xcnt - 1] != 'X' && 'a' <= xtra.first <= 'z' && 'a' <= xtra.second <= 'z'
      modifies path
      ensures trv == path.Length - Extras(xcnt) && path[..trv] == old(path[..trv])
      ensures xcnt > 0 ==> path[path.Length - 1] == xtra.first
      ensures xcnt > 6 ==> path[path.Length - 2] == xtra.second
      ensures Wheels(path[trv..])
    {
      trv := path.Length;
      if path[trv - 1] == 'X' {
        trv := trv - 1;
        path[trv] := xtra.first;
      }
      if xcnt > 6 && path[trv - 1] == 'X' {
        trv := trv - 1;
        path[trv] := xtra.second;
      }
    }

    /** The loop over the remaining X's, from the right */
    method PutDigits(path: array<char>, start: nat, end: nat, pid: nat)
      requires 1 <= start <= end <= path.Length && path[start - 1] != 'X'
      requires forall i | start <= i < end :: path[i] == 'X'
      modifies path
      ensures path[start..end] == PidDigits(pid, end - start)
      ensures path[..start] == old(path[..start]) && path[end..] == old(path[end..])
    {
      var trv := end - 1;
      var rest: nat := pid;
      while path[trv] == 'X'
        invariant start <= trv + 1 <= end
        invariant PidDigits(pid, end - start) == PidDigits(rest, trv + 1 - start) + path[trv + 1..end]
        invariant forall i | 0 <= i <= trv :: path[i] == old(path[i])
        invariant path[end..] == old(path[end..])
        decreases trv
      {
        ghost var done := path[trv + 1..end];
        path[trv] := Digit(rest % 10);
        assert path[trv..end] == [Digit(rest % 10)] + done;
        rest := rest / 10;
        trv := trv - 1;
      }
    }

    /** The search loop: tries the path, and on `Exists` turns the wheels in place. `world` says what creating a file
        of some name gives at the n-th attempt. */
    method Search(path: array<char>, start: nat, world: (seq<char>, nat) -> Creation)
      returns (ok: bool, attempts: nat, ghost names: seq<seq<char>>)
      requires start <= path.Length && Wheels(path[start..])
      modifies path
      ensures path[..start] == old(path[..start]) && Wheels(path[start..])
      ensures Tried(old(path[start..]), names) && attempts == |names|
      ensures forall k | 0 <= k < attempts - 1 :: world(old(path[..start]) + names[k], k) == Exists
      ensures ok ==> path[start..] == names[attempts - 1] && world(path[..], attempts - 1) == Created
      ensures !ok ==>
        var last := world(old(path[..start]) + names[attempts - 1], attempts - 1);
        last == Refused || (last == Exists && attempts == Highest(path.Length - start) - Total(old(path[start..])) + 1)
    {
      hide Advance, Total, Highest;
      ghost var s, fixed_ := path[start..], path[..start];
      names := [s];
      attempts := 1;
      while true
        invariant path[..start] == fixed_ && Wheels(path[start..])
        invariant Tried(s, names) && attempts == |names| && names[attempts - 1] == path[start..]
        invariant forall k | 0 <= k < attempts - 1 :: world(fixed_ + names[k], k) == Exists
        decreases Highest(path.Length - start) - Total(path[start..])
      {
        assert path[..] == fixed_ + path[start..];
        var r := world(path[..], attempts - 1);
        if r == Created {
          return true, attempts, names;
        }
        if r != Exists {
          return false, attempts, names;
        }
        ghost var now := path[start..];
        AdvanceCounts(now);
        var turned := Turn(path, start);
        if !turned {
          TriedTotals(s, names, attempts - 1);
          return false, attempts, names;
        }
        TotalBounded(path[start..]);
        names := names + [path[start..]];
        attempts := attempts + 1;
      }
    }

    /** The inner loop: wheels at 'z' go back to 'a', and the first other one goes up. */
    method Turn(path: array<char>, start: nat) returns (turned: bool)
      requires start <= path.Length && Wheels(path[start..])
      modifies path
      ensures path[..start] == old(path[..start])
      ensures turned == Advance(old(path[start..])).Some?
      ensures turned ==> path[start..] == Advance(old(path[start..])).value
      ensures Wheels(path[start..])
    {
      hide Advance, Value;
      ghost var s := path[start..];
      var trv := start;
      assert forall i | start <= i < path.Length :: path[i] == s[i - start] && IsWheel(s[i - start]);
      while trv < path.Length && path[trv] == 'z'
        invariant start <= trv <= path.Length
        invariant forall i | 0 <= i < start :: path[i] == old(path[i])
        invariant forall i | start <= i < trv :: path[i] == 'a'
        invariant forall i | 0 <= i < trv - start :: s[i] == 'z'
        invariant forall i | trv <= i < path.Length :: path[i] == s[i - start]
      {
        path[trv] := 'a';
        trv := trv + 1;
      }
      AdvanceAt(s, trv - start);
      if trv == path.Length {
        return false;
      }
      assert IsWheel(s[trv - start]);
      path[trv] := Up(path[trv]);
      turned := true;
      assert path[start..] == Advance(s).value;
    }
  }

  function Digit(d: nat): (c: char)
    requires d < 10
    ensures IsWheel(c)
  {
    ('0' as int + d) as char
  }

  /** What a step does, in one go: the first n wheels are at 'z', the next one is not. */
  lemma {:induction false} AdvanceAt(s: seq<char>, n: nat)
    requires Wheels(s) && n <= |s| && (forall i | 0 <= i < n :: s[i] == 'z') && (n < |s| ==> s[n] != 'z')
    ensures Advance(s) ==
      if n == |s| then None
      else Some(seq(n, _ => 'a') + [Up(s[n])] + s[n + 1..])
  {
    if n > 0 {
      AdvanceAt(s[1..], n - 1);
      if n < |s| {
        assert seq(n, _ => 'a') + [Up(s[n])] + s[n + 1..] == ['a'] + (seq(n - 1, _ => 'a') + [Up(s[n])] + s[1..][n..]);
      }
    } else if s != [] {
      assert seq(0, _ => 'a') + [Up(s[0])] + s[1..] == [Up(s[0])] + s[1..];
    }
  }
}
