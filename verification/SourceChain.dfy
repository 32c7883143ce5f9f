/** A chain of data sources: opening it from the bottom up, with unwinding, and closing it from the top down. */
module SourceChain {

  /** One callback invocation, by the height of the layer (the base source has height 0). */
  datatype Call = OpenCall(height: nat, ok: bool) | CloseCall(height: nat)

  datatype ErrorSource = NoError | Upper | Lower | Invalid

  const ZIP_SOURCE_ERR_LOWER := -2

  // ----- which callbacks run

  /** Opens of layers 0 to n - 1, all successful, in that order. */
  function Opens(n: nat): seq<Call> {
    seq(n, i requires 0 <= i < n => OpenCall(i, true))
  }

  /** Closes of layers n - 1 to 0, in that order. */
  function Closes(n: nat): (calls: seq<Call>)
    ensures |calls| == n
  {
    seq(n, i requires 0 <= i < n => CloseCall(n - 1 - i))
  }

  /** The lowest layer whose OPEN callback answers with an error, or the number of layers. */
  function FirstRefusal(answers: seq<int>): (n: nat)
    ensures n <= |answers| && (n < |answers| ==> answers[n] < 0) && forall i | 0 <= i < n :: answers[i] >= 0
  {
    if answers == [] then 0
    else
      var n := FirstRefusal(answers[..|answers| - 1]);
      if n < |answers| - 1 then n
      else if answers[|answers| - 1] < 0 then |answers| - 1
      else |answers|
  }

  /** All callbacks of an open on a closed chain whose layers will answer `answers`: everything below the first
      refusal is opened, the refusal is met, and what was opened is closed again. */
  function OpeningCalls(answers: seq<int>): seq<Call> {
    var n := FirstRefusal(answers);
    if n == |answers| then Opens(n) else Opens(n) + [OpenCall(n, false)] + Closes(n)
  }

  lemma RefusalOneMore(lower: seq<int>, ret: int)
    ensures FirstRefusal(lower + [ret]) ==
      if FirstRefusal(lower) < |lower| || ret < 0 then FirstRefusal(lower) else |lower| + 1
  {
    assert (lower + [ret])[..|lower|] == lower;
  }

  /** How the callbacks of a chain continue those of its lower part. */
  lemma OpeningOneMore(lower: seq<int>, ret: int)
    ensures var all, n := lower + [ret], |lower|;
      if FirstRefusal(lower) < n then
        FirstRefusal(all) == FirstRefusal(lower) && OpeningCalls(all) == OpeningCalls(lower)
      else if ret < 0 then
        FirstRefusal(all) == n && OpeningCalls(all) == OpeningCalls(lower) + [OpenCall(n, false)] + Closes(n)
      else FirstRefusal(all) == n + 1 && OpeningCalls(all) == OpeningCalls(lower) + [OpenCall(n, true)]
  {
    hide Opens, Closes, FirstRefusal;
    RefusalOneMore(lower, ret);
    OpensOneMore(|lower|);
  }

  lemma OpensOneMore(n: nat)
    ensures Opens(n + 1) == Opens(n) + [OpenCall(n, true)]
  {
  }

  lemma OpeningNone()
    ensures OpeningCalls([]) == [] && FirstRefusal([]) == 0 && Closes(0) == []
  {
  }

  function Count(calls: seq<Call>, c: Call): nat {
    multiset(calls)[c]
  }

  /** Successful opens of layer h that have not been closed. */
  function Pending(calls: seq<Call>, h: nat): int {
    Count(calls, OpenCall(h, true)) - Count(calls, CloseCall(h))
  }

  lemma PendingJoins(a: seq<Call>, b: seq<Call>, h: nat)
    ensures Pending(a + b, h) == Pending(a, h) + Pending(b, h)
  {
  }

  lemma PendingNone(h: nat)
    ensures Pending([], h) == 0
  {
  }

  lemma {:induction false} PendingOpens(n: nat, h: nat)
    ensures Count(Opens(n), OpenCall(h, true)) == (if h < n then 1 else 0) && Count(Opens(n), CloseCall(h)) == 0
  {
    if n > 0 {
      assert Opens(n) == Opens(n - 1) + [OpenCall(n - 1, true)];
      PendingOpens(n - 1, h);
    }
  }

  lemma {:induction false} PendingCloses(n: nat, h: nat)
    ensures Count(Closes(n), CloseCall(h)) == (if h < n then 1 else 0) && Count(Closes(n), OpenCall(h, true)) == 0
  {
    if n > 0 {
      assert Closes(n) == [CloseCall(n - 1)] + Closes(n - 1);
      PendingCloses(n - 1, h);
    }
  }

  /** An open leaves one pending open per layer if it succeeds, and none if it fails; no layer is opened or closed
      twice. */
  lemma OpeningBalanced(answers: seq<int>, h: nat)
    requires h < |answers|
    ensures Pending(OpeningCalls(answers), h) == if FirstRefusal(answers) == |answers| then 1 else 0
    ensures Count(OpeningCalls(answers), OpenCall(h, true)) <= 1 && Count(OpeningCalls(answers), CloseCall(h)) <= 1
  {
    var n := FirstRefusal(answers);
    PendingOpens(n, h);
    PendingCloses(n, h);
  }

  lemma ClosingBalanced(n: nat, h: nat)
    requires h < n
    ensures Pending(Closes(n), h) == -1
  {
    PendingCloses(n, h);
  }

  // ----- who is to blame

  /** What an open leaves in the error fields of the layers, and whether it succeeds. */
  function Blame(errors: seq<ErrorSource>, open: seq<bool>, answers: seq<int>): (r: (seq<ErrorSource>, bool))
    requires |errors| == |open| == |answers|
    ensures |r.0| == |errors|
  {
    if errors == [] then ([], true)
    else
      var n := |errors| - 1;
      if open[n] then (errors[n := Invalid], false)
      else
        var (lower, ok) := Blame(errors[..n], open[..n], answers[..n]);
        if !ok then (lower + [Lower], false)
        else if answers[n] >= 0 then (lower + [errors[n]], true)
        else if n == 0 then (errors, false)
        else (lower + [if answers[n] == ZIP_SOURCE_ERR_LOWER then Lower else Upper], false)
  }

  lemma BlameNext(errors: seq<ErrorSource>, open: seq<bool>, answers: seq<int>, e: ErrorSource, ret: int)
    requires |errors| == |open| == |answers|
    ensures Blame(errors + [e], open + [false], answers + [ret]) ==
      var (lower, ok) := Blame(errors, open, answers);
      if !ok then (lower + [Lower], false)
      else if ret >= 0 then (lower + [e], true)
      else if errors == [] then ([e], false)
      else (lower + [if ret == ZIP_SOURCE_ERR_LOWER then Lower else Upper], false)
  {
    var n := |errors|;
    assert (errors + [e])[..n] == errors && (open + [false])[..n] == open && (answers + [ret])[..n] == answers;
  }

  /** Where an open stops: at the highest layer that is open already, or else at the first that refuses. */
  predicate StopsAt(open: seq<bool>, answers: seq<int>, k: nat)
    requires |open| == |answers|
  {
    && k < |open|
    && if forall i | 0 <= i < |open| :: !open[i] then k == FirstRefusal(answers)
       else open[k] && forall i | k < i < |open| :: !open[i]
  }

  lemma {:induction false} OpensIff(errors: seq<ErrorSource>, open: seq<bool>, answers: seq<int>)
    requires |errors| == |open| == |answers|
    ensures var (after, ok) := Blame(errors, open, answers);
      && (ok <==> (forall i | 0 <= i < |open| :: !open[i]) && FirstRefusal(answers) == |answers|)
      && (ok ==> after == errors)
  {
    if errors != [] {
      var n := |errors| - 1;
      OpensIff(errors[..n], open[..n], answers[..n]);
      assert forall i | 0 <= i < n :: open[..n][i] == open[i];
    }
  }

  /** The layer that stops it gets the blame, as the invalid one if it was open already, and otherwise by what its
      callback says of itself (but for the base, which keeps its own error); each layer above blames the one below, and
      the layers below are left alone. */
  lemma {:induction false} BlameMeans(errors: seq<ErrorSource>, open: seq<bool>, answers: seq<int>, k: nat)
    requires |errors| == |open| == |answers| && StopsAt(open, answers, k)
    ensures var (after, ok) := Blame(errors, open, answers);
      && !ok
      && (forall i | 0 <= i < k :: after[i] == errors[i])
      && (forall i | k < i < |errors| :: after[i] == Lower)
      && after[k] == if open[k] then Invalid
                     else if k == 0 then errors[0]
                     else if answers[k] == -2 then Lower else Upper
  {
    hide FirstRefusal;
    var n := |errors| - 1;
    OpensIff(errors, open, answers);
    assert answers == answers[..n] + [answers[n]];
    RefusalOneMore(answers[..n], answers[n]);
    assert forall i | 0 <= i < n :: open[..n][i] == open[i];
    if k < n {
      BlameMeans(errors[..n], open[..n], answers[..n], k);
    } else if !open[n] {
      OpensIff(errors[..n], open[..n], answers[..n]);
    }
  }

  // ----- the layers

  class Source {
    const src: Source?
    /** What the OPEN callback answers the n-th time it is called. */
    const onOpen: nat -> int
    var isOpen: bool
    var errorSource: ErrorSource
    var timesAsked: nat

    const height: nat
    /** This layer and everything below it, from the bottom. */
    ghost const chain: seq<Source>

    constructor (src: Source?, onOpen: nat -> int)
      requires src != null ==> src.Valid()
      ensures Valid() && this.src == src && this.onOpen == onOpen
      ensures !isOpen && errorSource == NoError && timesAsked == 0
      ensures chain == (if src == null then [] else src.chain) + [this]
    {
      this.src, this.onOpen := src, onOpen;
      height := if src == null then 0 else src.height + 1;
      chain := (if src == null then [] else src.chain) + [this];
      isOpen, errorSource, timesAsked := false, NoError, 0;
    }

    ghost predicate Valid()
      decreases height
    {
      && |chain| == height + 1
      && (src == null ==> height == 0 && chain == [this])
      && (src != null ==> src.height == height - 1 && src.Valid() && chain == src.chain + [this])
    }

    /** Heights tell the layers of a chain apart. */
    lemma {:induction false} Heights()
      requires Valid()
      ensures forall i | 0 <= i <= height :: chain[i].height == i
      decreases height
    {
      if src != null {
        src.Heights();
        assert forall i | 0 <= i < height :: chain[i] == src.chain[i];
      }
    }

    ghost predicate AllClosed()
      reads chain
    {
      forall s <- chain :: !s.isOpen
    }

    ghost predicate AllOpen()
      reads chain
    {
      forall s <- chain :: s.isOpen
    }

    /** What the layers will answer to the next OPEN. */
    ghost function Answers(): (r: seq<int>)
      reads chain
      ensures |r| == |chain|
    {
      seq(|chain|, i requires 0 <= i < |chain| reads chain => chain[i].onOpen(chain[i].timesAsked))
    }

    ghost function Errors(): (r: seq<ErrorSource>)
      reads chain
      ensures |r| == |chain|
    {
      seq(|chain|, i requires 0 <= i < |chain| reads chain => chain[i].errorSource)
    }

    ghost function Flags(): (r: seq<bool>)
      reads chain
      ensures |r| == |chain|
    {
      seq(|chain|, i requires 0 <= i < |chain| reads chain => chain[i].isOpen)
    }

    lemma LowerPart()
      requires Valid() && src != null
      ensures this !in src.chain && chain[..height] == src.chain
      ensures Answers() == src.Answers() + [onOpen(timesAsked)] && |src.Answers()| == height
      ensures Errors() == src.Errors() + [errorSource] && Flags() == src.Flags() + [isOpen]
    {
      Heights();
      forall i | 0 <= i < height
        ensures src.chain[i] == chain[i] && chain[i] != this
      {
        assert chain[i].height == i;
      }
    }

    /** `zip_source_open`: all or nothing. Also returned are the callbacks that ran, in order. */
    method Open() returns (ok: bool, calls: seq<Call>)
      requires Valid()
      modifies chain
      ensures ok <==> old(AllClosed()) && FirstRefusal(old(Answers())) == |chain|
      ensures if ok then AllOpen() else forall s <- chain :: s.isOpen == old(s.isOpen)
      ensures calls == if old(AllClosed()) then OpeningCalls(old(Answers())) else []
      ensures (Errors(), ok) == old(Blame(Errors(), Flags(), Answers()))
      decreases height, 1
    {
      hide OpeningCalls, FirstRefusal, Opens, Closes;
      assert chain[height] == this;
      if isOpen {
        Heights();
        ghost var errors := Errors();
        errorSource := Invalid;
        assert Errors() == errors[height := Invalid];
        return false, [];
      }
      if src == null {
        ok, calls := OpenBase();
      } else {
        ok, calls := OpenLayered();
      }
    }

    /** The branch of `zip_source_open` for a base source. */
    method OpenBase() returns (ok: bool, calls: seq<Call>)
      requires Valid() && src == null && !isOpen
      modifies this`isOpen, this`timesAsked
      ensures timesAsked == old(timesAsked) + 1 && ok == isOpen == (FirstRefusal(old(Answers())) == 1)
      ensures calls == OpeningCalls(old(Answers()))
      ensures (Errors(), ok) == old(Blame(Errors(), Flags(), Answers()))
    {
      hide OpeningCalls, FirstRefusal, Opens, Closes;
      assert chain[height] == this;
      OpeningNone();
      assert Answers() == [] + [onOpen(timesAsked)] && Errors() == [] + [errorSource] && Flags() == [] + [false];
      BlameNext([], [], [], errorSource, onOpen(timesAsked));
      OpeningOneMore([], onOpen(timesAsked));
      var ret := onOpen(timesAsked);
      timesAsked := timesAsked + 1;
      ok := ret >= 0;
      calls := [OpenCall(height, ok)];
      isOpen := ok;
      assert Errors() == [errorSource];
    }

    /** The branch of `zip_source_open` for a layer on top of another source. */
    method OpenLayered() returns (ok: bool, calls: seq<Call>)
      requires Valid() && src != null && !isOpen
      modifies chain
      ensures ok <==> old(AllClosed()) && FirstRefusal(old(Answers())) == |chain|
      ensures if ok then AllOpen() else forall s <- chain :: s.isOpen == old(s.isOpen)
      ensures calls == if old(AllClosed()) then OpeningCalls(old(Answers())) else []
      ensures (Errors(), ok) == old(Blame(Errors(), Flags(), Answers()))
      decreases height, 0
    {
      hide OpeningCalls, FirstRefusal, Opens, Closes, Answers, Errors, Flags;
      LowerPart();
      assert chain[height] == this;
      OpeningOneMore(src.Answers(), onOpen(timesAsked));
      BlameNext(src.Errors(), src.Flags(), src.Answers(), errorSource, onOpen(timesAsked));
      ok, calls := src.Open();
      if !ok {
        errorSource := Lower;
        LowerPart();
        return;
      }
      ok, calls := OpenTop(calls);
    }

    /** The end of `zip_source_open` for a layer whose source has just been opened; below is what ran for that. */
    method OpenTop(below: seq<Call>) returns (ok: bool, calls: seq<Call>)
      requires Valid() && src != null && !isOpen && src.AllOpen()
      modifies chain
      ensures timesAsked == old(timesAsked) + 1 && ok == (onOpen(old(timesAsked)) >= 0)
      ensures if ok then AllOpen() else AllClosed()
      ensures calls == below + [OpenCall(height, ok)] + if ok then [] else Closes(height)
      ensures Errors() == old(src.Errors()) +
        [if ok then old(errorSource) else if onOpen(old(timesAsked)) == ZIP_SOURCE_ERR_LOWER then Lower else Upper]
    {
      hide Closes;
      LowerPart();
      assert chain[height] == this && src.height + 1 == height;
      var ret := onOpen(timesAsked);
      timesAsked := timesAsked + 1;
      calls := below + [OpenCall(height, ret >= 0)];
      if ret < 0 {
        assert src.OpenOnTop() == height;
        var closed := src.Close();
        assert closed == Closes(height);
        calls := calls + closed;
        errorSource := if ret == ZIP_SOURCE_ERR_LOWER then Lower else Upper;
        return false, calls;
      }
      isOpen := true;
      ok := true;
    }

    /** How many layers are open from this one down to the first closed one. */
    ghost function OpenOnTop(): (m: nat)
      requires Valid()
      reads chain
      ensures m <= height + 1 && (m == height + 1 <==> AllOpen()) && (m == 0 <==> !isOpen)
      decreases height
    {
      assert chain[height] == this;
      if !isOpen then 0
      else if src == null then 1
      else
        LowerPart();
        1 + src.OpenOnTop()
    }

    /** `zip_source_close`: closes this layer and those below, down to the first that is closed already. */
    method Close() returns (calls: seq<Call>)
      requires Valid()
      modifies chain
      ensures forall i | 0 <= i <= height ::
        chain[i].isOpen == (old(chain[i].isOpen) && exists k | i <= k <= height :: !old(chain[k].isOpen))
      ensures calls == Closes(height + 1)[..old(OpenOnTop())] && (old(AllOpen()) ==> AllClosed())
      ensures forall s <- chain :: s.timesAsked == old(s.timesAsked) && s.errorSource == old(s.errorSource)
      decreases height
    {
      assert chain[height] == this;
      if !isOpen {
        return [];
      }
      calls := [CloseCall(height)];
      if src != null {
        LowerPart();
        assert Closes(height + 1) == [CloseCall(height)] + Closes(height);
        ghost var m := src.OpenOnTop();
        var lower := src.Close();
        calls := calls + lower;
        assert calls == ([CloseCall(height)] + Closes(height))[..m + 1];
      } else {
        assert Closes(1) == [CloseCall(0)];
      }
      isOpen := false;
    }
  
    /** One call on the top of a chain that is all open or all closed. */
    method Round(open: bool) returns (calls: seq<Call>)
      requires Valid() && (AllClosed() || AllOpen())
      modifies chain
      ensures AllClosed() || AllOpen()
      ensures forall h | 0 <= h <= height ::
        Pending(calls, h) == (if isOpen then 1 else 0) - if old(isOpen) then 1 else 0
    {
      hide OpeningCalls, FirstRefusal, Opens, Closes, Pending, Answers;
      assert chain[height] == this;
      ghost var answers := Answers();
      ghost var was := isOpen;
      if open {
        var ok;
        ok, calls := Open();
      } else {
        assert OpenOnTop() == if was then height + 1 else 0;
        calls := Close();
        assert calls == if was then Closes(height + 1) else [];
      }
      forall h | 0 <= h <= height
        ensures Pending(calls, h) == (if isOpen then 1 else 0) - if was then 1 else 0
      {
        PendingNone(h);
        OpeningBalanced(answers, h);
        ClosingBalanced(height + 1, h);
      }
    }

    /** Any calls on the top of a chain that starts closed: at every moment all layers are closed or all are open,
        and every successful OPEN has had exactly one CLOSE unless its layer is open now. */
    method History(opens: seq<bool>) returns (calls: seq<Call>)
      requires Valid() && AllClosed()
      modifies chain
      ensures AllClosed() || AllOpen()
      ensures forall h | 0 <= h <= height :: Pending(calls, h) == if isOpen then 1 else 0
    {
      hide Pending;
      calls := [];
      assert chain[height] == this;
      forall h | 0 <= h <= height
        ensures Pending([], h) == 0
      {
        PendingNone(h);
      }
      for i := 0 to |opens|
        invariant AllClosed() || AllOpen()
        invariant forall h | 0 <= h <= height :: Pending(calls, h) == if isOpen then 1 else 0
      {
        ghost var before := calls;
        var more := Round(opens[i]);
        calls := calls + more;
        forall h | 0 <= h <= height
          ensures Pending(calls, h) == if isOpen then 1 else 0
        {
          PendingJoins(before, more, h);
        }
      }
    }
  }
}
