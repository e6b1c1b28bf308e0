/** The lifecycle a stdio-json-v2 session accepts, one invocation at a time. */
module V2Sessions {
  import opened Decimal

  datatype State = Ready | Invoked(v: string) | Result(v: string) | StderrComplete(v: string)

  datatype Verdict = Refused | Moved(to: State)

  /** What Accept does with one frame of the session's own generation. */
  function Next(s: State, kind: string, v: string): Verdict {
    if !ValidInvocationId(v) then Refused
    else match s
      case Ready => if kind == "invoke" then Moved(Invoked(v)) else Refused
      case Invoked(u) =>
        if v != u then Refused
        else if kind == "stderr_chunk" then Moved(s)
        else if kind == "invoke_result" then Moved(Result(u))
        else Refused
      case Result(u) => if kind == "stderr_complete" && v == u then Moved(StderrComplete(u)) else Refused
      case StderrComplete(u) => if kind == "invoke_ready" && v == u then Moved(Ready) else Refused
  }

  datatype Frame = Frame(kind: string, v: string)

  /** The state after a word of frames, Refused if any is refused. */
  function Run(word: seq<Frame>): Verdict {
    if word == [] then Moved(Ready)
    else match Run(word[..|word| - 1])
      case Refused => Refused
      case Moved(s) => Next(s, word[|word| - 1].kind, word[|word| - 1].v)
  }

  lemma RunStep(word: seq<Frame>, f: Frame)
    ensures Run(word + [f]) == if Run(word).Refused? then Refused else Next(Run(word).to, f.kind, f.v)
  {
    assert (word + [f])[..|word|] == word;
  }

  class V2Session {
    const generation: nat
    var state: string
    var invocation: string

    ghost predicate Valid()
      reads this
    {
      state == "ready" || state == "invoked" || state == "result" || state == "stderr_complete"
    }

    ghost function Abs(): State
      reads this
      requires Valid()
    {
      if state == "ready" then Ready else if state == "invoked" then Invoked(invocation)
      else if state == "result" then Result(invocation) else StderrComplete(invocation)
    }

    constructor (generation: nat)
      ensures Valid() && Abs() == Ready && this.generation == generation
    {
      this.generation, state, invocation := generation, "ready", "";
    }

    /** A refused frame leaves the session as it was. */
    method Accept(kind: string, generation: nat, invocation: string) returns (ok: bool)
      requires Valid()
      modifies this
      ensures Valid()
      ensures ok <==> generation == this.generation && Next(old(Abs()), kind, invocation).Moved?
      ensures ok ==> Abs() == Next(old(Abs()), kind, invocation).to
      ensures !ok ==> Abs() == old(Abs())
    {
      if generation != this.generation || !ValidInvocationId(invocation) {
        return false;
      }
      if state == "ready" {
        if kind != "invoke" {
          return false;
        }
        this.invocation := invocation;
        state := "invoked";
      } else if state == "invoked" {
        if invocation != this.invocation {
          return false;
        }
        if kind == "stderr_chunk" {
          return true;
        }
        if kind != "invoke_result" {
          return false;
        }
        state := "result";
      } else if state == "result" {
        if kind != "stderr_complete" || invocation != this.invocation {
          return false;
        }
        state := "stderr_complete";
      } else {
        if kind != "invoke_ready" || invocation != this.invocation {
          return false;
        }
        state := "ready";
        this.invocation := "";
      }
      ok := true;
    }
  }
}
