/**
 * The input handling of the document reader agent's interactive loop: each
 * line is stripped; a blank line re-prompts, an exit word (any case) ends the
 * loop, and anything else is passed on to the agent as a query.
 */
module PromptLoop {
  import opened TextUtil

  /** The words that end the loop, compared after lower-casing. */
  const ExitWords: seq<string> := ["exit", "quit", "q"]

  /** What the loop does with one line of input. */
  datatype Decision = Reprompt | Stop | Ask(query: string)

  /**
   * One pass of the loop body: blank input re-prompts, an exit word stops,
   * and everything else becomes the query, stripped but otherwise as typed.
   */
  function Classify(line: string): (d: Decision)
    ensures d.Reprompt? <==> AllSpace(line)
    ensures d.Ask? ==> d.query == Strip(line) && d.query != [] && IsStripped(d.query)
    ensures d.Ask? ==> Lower(d.query) !in ExitWords
  {
    var q := Strip(line);
    if q == [] then Reprompt
    else if Lower(q) in ExitWords then Stop
    else Ask(q)
  }

  /**
   * A line stops the loop exactly when, stripped, it spells `exit`, `quit`
   * or `q` in any mix of upper and lower case.
   */
  lemma StopIffExitWord(line: string)
    ensures Classify(line).Stop? <==>
      || EqualsIgnoringCase(Strip(line), "exit")
      || EqualsIgnoringCase(Strip(line), "quit")
      || EqualsIgnoringCase(Strip(line), "q")
  {
    var q := Strip(line);
    assert Classify(line).Stop? <==> q != [] && Lower(q) in ExitWords;
    assert Lower(q) in ExitWords <==> Lower(q) == "exit" || Lower(q) == "quit" || Lower(q) == "q" by {
      assert ExitWords == ["exit", "quit", "q"];
    }
    assert Lower(q) == "exit" <==> EqualsIgnoringCase(q, "exit") by { LowerMatchesIgnoringCase(q, "exit"); }
    assert Lower(q) == "quit" <==> EqualsIgnoringCase(q, "quit") by { LowerMatchesIgnoringCase(q, "quit"); }
    assert Lower(q) == "q" <==> EqualsIgnoringCase(q, "q") by { LowerMatchesIgnoringCase(q, "q"); }
  }

  /** A query handed to the agent, typed again, would be handed on unchanged. */
  lemma QueryIsFixpoint(line: string)
    requires Classify(line).Ask?
    ensures Classify(Classify(line).query) == Classify(line)
  {
    StripIdempotent(line);
  }

  /** How the loop ended: an exit word, or the input ran out (`input()` raising `EOFError`). */
  datatype SessionEnd = Stopped | InputExhausted

  /** The queries handed to the agent, in order, and how the loop ended. */
  datatype Session = Session(queries: seq<string>, end: SessionEnd)

  /** Queries already sent, followed by the rest of the session. */
  function Then(sent: seq<string>, later: Session): Session {
    Session(sent + later.queries, later.end)
  }

  /** `f` applied to each element of `xs`, in order. */
  function Map<A, B>(f: A -> B, xs: seq<A>): (ys: seq<B>)
    ensures |ys| == |xs|
    ensures forall i :: 0 <= i < |xs| ==> ys[i] == f(xs[i])
  {
    if xs == [] then [] else [f(xs[0])] + Map(f, xs[1..])
  }

  lemma {:induction false} MapAppend<A, B>(f: A -> B, a: seq<A>, b: seq<A>)
    ensures Map(f, a + b) == Map(f, a) + Map(f, b)
  {
    var l, r := Map(f, a + b), Map(f, a) + Map(f, b);
    assert |l| == |r|;
    forall i | 0 <= i < |l| ensures l[i] == r[i] {
      if i < |a| {
        assert (a + b)[i] == a[i];
      } else {
        assert (a + b)[i] == b[i - |a|];
      }
    }
  }

  /** What the loop decides for each line, in input order. */
  function Decisions(lines: seq<string>): seq<Decision> {
    Map(Classify, lines)
  }

  /** The loop driven by its per-line decisions: queries in order, up to the first stop. */
  function Run(ds: seq<Decision>): Session {
    if ds == [] then Session([], InputExhausted)
    else match ds[0]
      case Reprompt => Run(ds[1..])
      case Stop => Session([], Stopped)
      case Ask(q) => Then([q], Run(ds[1..]))
  }

  /** The whole loop over a finite sequence of input lines. */
  function RunSession(lines: seq<string>): Session {
    Run(Decisions(lines))
  }

  /** With no input the loop sends nothing and ends for lack of input. */
  lemma EmptySession()
    ensures RunSession([]) == Session([], InputExhausted)
  {
  }

  /**
   * A line that is neither blank nor an exit word reaches the agent: its
   * stripped form is sent, then the session goes on with the next line.
   * With `NothingAfterStop`, `BlankLineIgnored` and `EmptySession` this
   * fixes the session for every input.
   */
  lemma QuerySent(line: string, post: seq<string>)
    requires Classify(line).Ask?
    ensures RunSession([line] + post) == Then([Strip(line)], RunSession(post))
  {
    MapAppend(Classify, [line], post);
    var ds := Decisions([line] + post);
    assert ds[0] == Classify(line);
    assert ds[1..] == Decisions(post);
  }

  /** After a stop, nothing more is decided. */
  lemma {:induction false} RunStopsAtStop(pre: seq<Decision>, post: seq<Decision>)
    requires Stop !in pre
    ensures Run(pre + [Stop] + post) == Session(Run(pre).queries, Stopped)
  {
    var all := pre + [Stop] + post;
    if pre == [] {
      assert all[0] == Stop;
    } else {
      assert all[0] == pre[0] && all[1..] == pre[1..] + [Stop] + post;
      RunStopsAtStop(pre[1..], post);
      assert pre[0] in pre;
      if pre[0].Ask? {
        assert [pre[0].query] + Run(pre[1..]).queries == Run(pre).queries;
      }
    }
  }

  /** A re-prompt leaves the session as it was. */
  lemma {:induction false} RunSkipsReprompt(pre: seq<Decision>, post: seq<Decision>)
    ensures Run(pre + [Reprompt] + post) == Run(pre + post)
  {
    if pre == [] {
      assert ([] + [Reprompt] + post)[1..] == post;
      assert [] + post == post;
    } else {
      assert (pre + [Reprompt] + post)[0] == pre[0];
      assert (pre + post)[0] == pre[0];
      assert (pre + [Reprompt] + post)[1..] == pre[1..] + [Reprompt] + post;
      assert (pre + post)[1..] == pre[1..] + post;
      RunSkipsReprompt(pre[1..], post);
    }
  }

  /** Every query of the run is an `Ask` decision of the list. */
  lemma {:induction false} RunQueriesAreAsks(ds: seq<Decision>)
    ensures forall i :: 0 <= i < |Run(ds).queries| ==> Ask(Run(ds).queries[i]) in ds
  {
    if ds != [] {
      RunQueriesAreAsks(ds[1..]);
      var qs, later := Run(ds).queries, Run(ds[1..]).queries;
      forall i | 0 <= i < |qs| ensures Ask(qs[i]) in ds {
        if ds[0].Ask? && i == 0 {
          assert qs[0] == ds[0].query;
        } else {
          var k := if ds[0].Ask? then i - 1 else i;
          assert qs[i] == later[k];
          assert Ask(later[k]) in ds[1..];
        }
      }
    }
  }

  /** No line that follows the first exit word reaches the agent. */
  lemma NothingAfterStop(pre: seq<string>, stop: string, post: seq<string>)
    requires forall i :: 0 <= i < |pre| ==> !Classify(pre[i]).Stop?
    requires Classify(stop).Stop?
    ensures RunSession(pre + [stop] + post) == Session(RunSession(pre).queries, Stopped)
  {
    MapAppend(Classify, pre + [stop], post);
    MapAppend(Classify, pre, [stop]);
    assert Decisions([stop]) == [Stop];
    assert Stop !in Decisions(pre) by {
      forall i | 0 <= i < |pre| ensures Decisions(pre)[i] != Stop {
        assert Decisions(pre)[i] == Classify(pre[i]);
      }
    }
    RunStopsAtStop(Decisions(pre), Decisions(post));
  }

  /** A blank line anywhere before the exit changes nothing: it re-prompts and never reaches the agent. */
  lemma BlankLineIgnored(pre: seq<string>, blank: string, post: seq<string>)
    requires AllSpace(blank)
    ensures RunSession(pre + [blank] + post) == RunSession(pre + post)
  {
    MapAppend(Classify, pre + [blank], post);
    MapAppend(Classify, pre, [blank]);
    MapAppend(Classify, pre, post);
    assert Decisions([blank]) == [Reprompt];
    RunSkipsReprompt(Decisions(pre), Decisions(post));
  }

  /**
   * Every query the session hands to the agent is non-empty, stripped, and
   * would be handed on unchanged if typed again.
   */
  lemma SessionQueriesAreQueries(lines: seq<string>)
    ensures forall i :: 0 <= i < |RunSession(lines).queries| ==>
      var q := RunSession(lines).queries[i];
      q != [] && IsStripped(q) && Classify(q) == Ask(q)
  {
    var ds := Decisions(lines);
    RunQueriesAreAsks(ds);
    forall i | 0 <= i < |Run(ds).queries|
      ensures var q := Run(ds).queries[i]; q != [] && IsStripped(q) && Classify(q) == Ask(q)
    {
      var q := Run(ds).queries[i];
      var j :| 0 <= j < |ds| && ds[j] == Ask(q);
      assert Classify(lines[j]) == Ask(q);
      QueryIsFixpoint(lines[j]);
    }
  }

  /** The loop invariant carried across one decision: what was sent so far, then the rest of the run. */
  lemma RunStep(ds: seq<Decision>, i: nat, sent: seq<string>, whole: Session)
    requires i < |ds| && whole == Then(sent, Run(ds[i..]))
    ensures match ds[i]
      case Reprompt => whole == Then(sent, Run(ds[i + 1..]))
      case Stop => whole == Session(sent, Stopped)
      case Ask(q) => whole == Then(sent + [q], Run(ds[i + 1..]))
  {
    assert ds[i..][0] == ds[i] && ds[i..][1..] == ds[i + 1..];
    var rest := Run(ds[i + 1..]);
    match ds[i]
    case Reprompt =>
    case Stop => assert sent + [] == sent;
    case Ask(q) => assert (sent + [q]) + rest.queries == sent + ([q] + rest.queries);
  }

  /**
   * The agent's `while True` loop over the input lines, for any way
   * `classify` of deciding what one line asks for: `consumed` lines are
   * read, and the loop leaves on the first stop or when input runs out.
   */
  method LoopWith(lines: seq<string>, classify: string -> Decision)
    returns (queries: seq<string>, end: SessionEnd, consumed: nat)
    ensures Session(queries, end) == Run(Map(classify, lines))
    ensures consumed <= |lines|
    ensures end == InputExhausted ==> consumed == |lines|
    ensures end == Stopped ==> consumed > 0 && classify(lines[consumed - 1]).Stop?
    ensures forall i :: 0 <= i < consumed - 1 ==> !classify(lines[i]).Stop?
  {
    ghost var ds := Map(classify, lines);
    ghost var whole := Run(ds);
    queries := [];
    consumed := 0;
    assert whole == Then(queries, Run(ds[consumed..])) by {
      assert ds[0..] == ds;
      assert [] + whole.queries == whole.queries;
    }
    while consumed < |lines|
      invariant consumed <= |lines| == |ds|
      invariant whole == Then(queries, Run(ds[consumed..]))
      invariant forall i :: 0 <= i < consumed ==> !classify(lines[i]).Stop?
      decreases |lines| - consumed
    {
      var d := classify(lines[consumed]);
      RunStep(ds, consumed, queries, whole);
      consumed := consumed + 1;
      match d {
        case Stop =>
          end := Stopped;
          return;
        case Reprompt =>
        case Ask(q) =>
          queries := queries + [q];
      }
    }
    end := InputExhausted;
    assert ds[consumed..] == [];
    assert queries + [] == queries;
  }

  /**
   * The agent's prompt loop: the same queries, sent in the same order and
   * ending the same way as the session over the lines; on a stop the last
   * line read is the first exit word, and otherwise every line was read.
   */
  method PromptLoop(lines: seq<string>) returns (queries: seq<string>, end: SessionEnd, consumed: nat)
    ensures Session(queries, end) == RunSession(lines)
    ensures consumed <= |lines|
    ensures end == InputExhausted ==> consumed == |lines|
    ensures end == Stopped ==> consumed > 0 && Classify(lines[consumed - 1]).Stop?
    ensures forall i :: 0 <= i < consumed - 1 ==> !Classify(lines[i]).Stop?
  {
    queries, end, consumed := LoopWith(lines, Classify);
  }

  /** `" Q "` stops the loop: stripped and lower-cased it is `q`. */
  lemma PaddedQStops()
    ensures Classify(" Q ") == Stop
  {
    assert SkipSpace(" Q ", 0) == 1;
    assert SkipSpaceBack(" Q ", 3) == 2;
    assert Strip(" Q ") == "Q";
    assert Lower("Q") == "q";
  }

  /** `"QUIT"` stops the loop. */
  lemma UpperQuitStops()
    ensures Classify("QUIT") == Stop
  {
    assert SkipSpace("QUIT", 0) == 0;
    assert SkipSpaceBack("QUIT", 4) == 4;
    assert Strip("QUIT") == "QUIT";
    assert Lower("QUIT") == "quit";
  }

  /** `"quitting"` is a query, not an exit word. */
  lemma LongerWordIsQuery()
    ensures Classify(" quitting ") == Ask("quitting")
  {
    var line, q := " quitting ", "quitting";
    assert Strip(line) == q by {
      assert SkipSpace(line, 0) == 1 by {
        assert IsSpace(line[0]) && !IsSpace(line[1]);
      }
      assert SkipSpaceBack(line, 10) == 9 by {
        assert IsSpace(line[9]) && !IsSpace(line[8]);
      }
      assert line[1..9] == q;
    }
    assert Lower(q) !in ExitWords by {
      assert |Lower(q)| == 8;
      assert ExitWords == ["exit", "quit", "q"];
    }
  }
}
