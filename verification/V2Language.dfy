/** The words a stdio-json-v2 session accepts: whole rounds, one after another,
    the last one possibly cut short. */
module V2Language {
  import opened Decimal
  import opened V2Sessions

  /** One invocation, with any number of diagnostic frames. */
  datatype Round = Round(v: string, chunks: nat)

  function Chunks(v: string, n: nat): seq<Frame> { seq(n, _ => Frame("stderr_chunk", v)) }

  function RoundWord(rd: Round): seq<Frame> {
    [Frame("invoke", rd.v)] + Chunks(rd.v, rd.chunks)
      + [Frame("invoke_result", rd.v), Frame("stderr_complete", rd.v), Frame("invoke_ready", rd.v)]
  }

  function Rounds(rds: seq<Round>): seq<Frame> {
    if rds == [] then [] else Rounds(rds[..|rds| - 1]) + RoundWord(rds[|rds| - 1])
  }

  predicate AllValid(rds: seq<Round>) { forall i :: 0 <= i < |rds| ==> ValidInvocationId(rds[i].v) }

  predicate IsPrefix(a: seq<Frame>, b: seq<Frame>) { |a| <= |b| && a == b[..|a|] }

  /** A word of the language. */
  ghost predicate InLanguage(word: seq<Frame>) { exists rds :: AllValid(rds) && IsPrefix(word, Rounds(rds)) }

  // What is accepted is in the language

  /** The part of a round a state has behind it. */
  function Partial(s: State, n: nat): seq<Frame> {
    match s
    case Ready => []
    case Invoked(v) => [Frame("invoke", v)] + Chunks(v, n)
    case Result(v) => [Frame("invoke", v)] + Chunks(v, n) + [Frame("invoke_result", v)]
    case StderrComplete(v) =>
      [Frame("invoke", v)] + Chunks(v, n) + [Frame("invoke_result", v), Frame("stderr_complete", v)]
  }

  predicate ValidState(s: State) { s.Ready? || ValidInvocationId(s.v) }

  lemma ChunksMore(v: string, n: nat)
    ensures Chunks(v, n + 1) == Chunks(v, n) + [Frame("stderr_chunk", v)] && Chunks(v, 0) == []
  {
  }

  lemma RoundsMore(rds: seq<Round>, rd: Round)
    ensures Rounds(rds + [rd]) == Rounds(rds) + RoundWord(rd)
  {
    assert (rds + [rd])[..|rds|] == rds;
  }

  /** One accepted frame takes a partial round on. */
  lemma PartialStep(s: State, n: nat, f: Frame) returns (m: nat)
    requires ValidState(s) && Next(s, f.kind, f.v).Moved?
    ensures var t := Next(s, f.kind, f.v).to;
      ValidState(t) && if t.Ready? then s.StderrComplete? && Partial(s, n) + [f] == RoundWord(Round(s.v, n))
                       else Partial(s, n) + [f] == Partial(t, m)
  {
    hide ValidInvocationId;
    m := n;
    if s.Ready? {
      m := 0;
      ChunksMore(f.v, 0);
    } else if s.Invoked? && f.kind == "stderr_chunk" {
      m := n + 1;
      ChunksMore(f.v, n);
    }
  }

  /** An accepted word is whole rounds and the state's part of one more. */
  lemma {:induction false} AcceptedShape(word: seq<Frame>) returns (rds: seq<Round>, n: nat)
    requires Run(word).Moved?
    ensures AllValid(rds) && ValidState(Run(word).to) && word == Rounds(rds) + Partial(Run(word).to, n)
  {
    hide ValidInvocationId, Next, Partial;
    if word == [] {
      rds, n := [], 0;
      PartialNone();
    } else {
      hide Rounds, RoundWord, AllValid;
      var front, f := word[..|word| - 1], word[|word| - 1];
      rds, n := AcceptedShape(front);
      var s, t := Run(front).to, Run(word).to;
      var m := PartialStep(s, n, f);
      assert word == Rounds(rds) + (Partial(s, n) + [f]);
      if t.Ready? {
        RoundsMore(rds, Round(s.v, n));
        OneMoreValid(rds, Round(s.v, n));
        rds := rds + [Round(s.v, n)];
        PartialNone();
        assert Rounds(rds) + [] == Rounds(rds);
      } else {
        n := m;
      }
    }
  }

  lemma OneMoreValid(rds: seq<Round>, rd: Round)
    requires AllValid(rds) && ValidInvocationId(rd.v)
    ensures AllValid(rds + [rd])
  {
  }

  lemma PartialNone()
    ensures forall n :: Partial(Ready, n) == []
  {
  }

  /** A partial round is the start of a whole one. */
  lemma PartialPrefix(s: State, n: nat)
    requires !s.Ready?
    ensures IsPrefix(Partial(s, n), RoundWord(Round(s.v, n)))
  {
  }

  lemma PrefixAfter(a: seq<Frame>, b: seq<Frame>, c: seq<Frame>)
    requires IsPrefix(b, c)
    ensures IsPrefix(a + b, a + c)
  {
  }

  lemma AcceptedInLanguage(word: seq<Frame>)
    requires Run(word).Moved?
    ensures InLanguage(word)
  {
    hide Run, ValidInvocationId, Partial, RoundWord, Rounds, IsPrefix;
    var rds, n := AcceptedShape(word);
    var s := Run(word).to;
    if s.Ready? {
      PartialNone();
      assert word == Rounds(rds) by { assert Rounds(rds) + [] == Rounds(rds); }
      WholePrefix(word);
    } else {
      PartialPrefix(s, n);
      RoundsMore(rds, Round(s.v, n));
      PrefixAfter(Rounds(rds), Partial(s, n), RoundWord(Round(s.v, n)));
      assert AllValid(rds + [Round(s.v, n)]);
    }
  }

  lemma WholePrefix(word: seq<Frame>)
    ensures IsPrefix(word, word)
  {
  }

  // What is in the language is accepted

  lemma {:induction false} PrefixAccepted(word: seq<Frame>, k: nat)
    requires Run(word).Moved? && k <= |word|
    ensures Run(word[..k]).Moved?
    decreases |word|
  {
    hide Next;
    if k == |word| {
      assert word[..k] == word;
    } else {
      PrefixAccepted(word[..|word| - 1], k);
      assert word[..|word| - 1][..k] == word[..k];
    }
  }

  lemma {:induction false} ChunksAccepted(word: seq<Frame>, v: string, n: nat)
    requires Run(word) == Moved(Invoked(v)) && ValidInvocationId(v)
    ensures Run(word + Chunks(v, n)) == Moved(Invoked(v))
  {
    hide Run, ValidInvocationId;
    if n == 0 {
      assert word + Chunks(v, 0) == word;
    } else {
      ChunksAccepted(word, v, n - 1);
      ChunksMore(v, n - 1);
      RunStep(word + Chunks(v, n - 1), Frame("stderr_chunk", v));
      assert word + Chunks(v, n) == word + Chunks(v, n - 1) + [Frame("stderr_chunk", v)];
    }
  }

  lemma RoundAccepted(word: seq<Frame>, rd: Round)
    requires Run(word) == Moved(Ready) && ValidInvocationId(rd.v)
    ensures Run(word + RoundWord(rd)) == Moved(Ready)
  {
    hide Run, ValidInvocationId, Chunks;
    var v := rd.v;
    var w1 := word + [Frame("invoke", v)];
    RunStep(word, Frame("invoke", v));
    ChunksAccepted(w1, v, rd.chunks);
    var w2 := w1 + Chunks(v, rd.chunks);
    RunStep(w2, Frame("invoke_result", v));
    var w3 := w2 + [Frame("invoke_result", v)];
    RunStep(w3, Frame("stderr_complete", v));
    var w4 := w3 + [Frame("stderr_complete", v)];
    RunStep(w4, Frame("invoke_ready", v));
    assert word + RoundWord(rd) == w4 + [Frame("invoke_ready", v)];
  }

  lemma {:induction false} RoundsAccepted(rds: seq<Round>)
    requires AllValid(rds)
    ensures Run(Rounds(rds)) == Moved(Ready)
  {
    hide ValidInvocationId, RoundWord;
    if rds != [] {
      hide Run;
      RoundsAccepted(rds[..|rds| - 1]);
      RoundAccepted(Rounds(rds[..|rds| - 1]), rds[|rds| - 1]);
    }
  }

  /** A session accepts a word exactly when it is a prefix of whole rounds:
      invoke, diagnostics, result, complete and ready of one valid invocation,
      again and again. */
  lemma LanguageIff(word: seq<Frame>)
    ensures Run(word).Moved? <==> InLanguage(word)
  {
    hide Run, Rounds, AllValid;
    if Run(word).Moved? {
      AcceptedInLanguage(word);
    }
    if InLanguage(word) {
      var rds :| AllValid(rds) && IsPrefix(word, Rounds(rds));
      RoundsAccepted(rds);
      PrefixAccepted(Rounds(rds), |word|);
    }
  }
}
