/**
 Lines out of a stream of chunks (`take_complete_line` and its use in crates/execution/src/benchmark.rs):
 chunks are appended to a buffer and complete lines are taken from its front, in any interleaving.
 */
module LineBuffer {
  import opened Wire

  /** The index of the first line feed, or the length. */
  function Find(s: string): (i: nat)
    ensures i <= |s| && (i < |s| ==> s[i] == '\n')
    ensures forall j :: 0 <= j < i ==> s[j] != '\n'
  {
    if s == "" || s[0] == '\n' then 0 else 1 + Find(s[1..])
  }

  /** The complete lines of a text, without their line feeds. */
  function Lines(s: string): (ls: seq<string>)
    decreases |s|
  {
    var i := Find(s);
    if i == |s| then [] else [s[..i]] + Lines(s[i + 1..])
  }

  /** What follows the last line feed. */
  function Rest(s: string): (r: string)
    ensures |r| <= |s|
    decreases |s|
  {
    var i := Find(s);
    if i == |s| then s else Rest(s[i + 1..])
  }

  /** `trim_end_matches('\\r')`. */
  function Trim(s: string): (t: string)
    ensures t <= s && forall i :: |t| <= i < |s| ==> s[i] == '\r'
    ensures t == "" || t[|t| - 1] != '\r'
  {
    if s != "" && s[|s| - 1] == '\r' then Trim(s[..|s| - 1]) else s
  }

  function Trimmed(ls: seq<string>): (ts: seq<string>)
    ensures |ts| == |ls| && forall i :: 0 <= i < |ls| ==> ts[i] == Trim(ls[i])
  {
    seq(|ls|, i requires 0 <= i < |ls| => Trim(ls[i]))
  }

  /** Lines put back together. */
  function Join(ls: seq<string>): (s: string) {
    if ls == [] then "" else ls[0] + ("\n" + Join(ls[1..]))
  }

  /** No character is lost or moved: the lines and the remainder are the text, and no line holds a line feed. */
  lemma {:induction false} SplitIsExact(s: string)
    ensures Join(Lines(s)) + Rest(s) == s
    ensures Find(Rest(s)) == |Rest(s)| && forall i :: 0 <= i < |Lines(s)| ==> Find(Lines(s)[i]) == |Lines(s)[i]|
    decreases |s|
  {
    hide Lines, Rest, Join, Find;
    var i := Find(s);
    if i < |s| {
      var tail := s[i + 1..];
      FirstLine(s);
      SplitIsExact(tail);
      FindUnique(s[..i], i);
      assert s == s[..i] + ("\n" + tail);
      JoinFirst(s[..i], Lines(tail));
      assert s[..i] + ("\n" + Join(Lines(tail))) + Rest(tail) == s[..i] + ("\n" + (Join(Lines(tail)) + Rest(tail)));
    } else {
      NoLine(s);
      assert Join([]) == "" by { JoinNothing(); }
    }
  }

  lemma NoLine(s: string)
    requires Find(s) == |s|
    ensures Lines(s) == [] && Rest(s) == s
  {
    hide Find;
  }

  lemma JoinFirst(l: string, ls: seq<string>)
    ensures Join([l] + ls) == l + ("\n" + Join(ls))
  {
    assert ([l] + ls)[1..] == ls;
  }

  lemma JoinNothing()
    ensures Join([]) == ""
  {
  }

  lemma FindAppend(a: string, b: string)
    ensures Find(a + b) == if Find(a) < |a| then Find(a) else |a| + Find(b)
  {
    var n := if Find(a) < |a| then Find(a) else |a| + Find(b);
    FindUnique(a + b, n);
  }

  lemma FindUnique(s: string, n: nat)
    requires n <= |s| && (n < |s| ==> s[n] == '\n') && forall j :: 0 <= j < n ==> s[j] != '\n'
    ensures Find(s) == n
  {
  }

  /** A text splits the same whether its front is split first or not. */
  lemma {:induction false} SplitAppend(a: string, b: string)
    ensures Lines(a + b) == Lines(a) + Lines(Rest(a) + b)
    ensures Rest(a + b) == Rest(Rest(a) + b)
    decreases |a|
  {
    hide Lines, Rest, Find;
    FindAppend(a, b);
    var i := Find(a);
    if i < |a| {
      FirstLine(a);
      FirstLine(a + b);
      assert (a + b)[..i] == a[..i];
      assert (a + b)[i + 1..] == a[i + 1..] + b;
      SplitAppend(a[i + 1..], b);
      var ls, more := Lines(a[i + 1..]), Lines(Rest(a[i + 1..]) + b);
      assert [a[..i]] + (ls + more) == ([a[..i]] + ls) + more;
    } else {
      NoLine(a);
      assert Lines(a) + Lines(a + b) == Lines(a + b);
    }
  }

  datatype Action = Append(chunk: string) | Take

  /** Everything appended so far, what the buffer still holds, and the lines taken. */
  datatype State = State(fed: string, text: string, taken: seq<string>)

  function Step(st: State, a: Action): (st': State) {
    match a
    case Append(chunk) => State(st.fed + chunk, st.text + chunk, st.taken)
    case Take =>
      var i := Find(st.text);
      if i == |st.text| then st
      else State(st.fed, st.text[i + 1..], st.taken + [Trim(st.text[..i])])
  }

  function Run(st: State, actions: seq<Action>): (st': State)
    decreases |actions|
  {
    if actions == [] then st else Run(Step(st, actions[0]), actions[1..])
  }

  /** The lines taken and the lines still in the buffer are the lines of everything appended. */
  ghost predicate Conserved(st: State) {
    st.taken + Trimmed(Lines(st.text)) == Trimmed(Lines(st.fed)) && Rest(st.text) == Rest(st.fed)
  }

  lemma StepConserves(st: State, a: Action)
    requires Conserved(st)
    ensures Conserved(Step(st, a))
  {
    hide Lines, Rest, Find, Trim, Trimmed;
    match a
    case Append(chunk) =>
      SplitAppend(st.text, chunk);
      SplitAppend(st.fed, chunk);
      var more := Lines(Rest(st.text) + chunk);
      TrimmedAppend(Lines(st.text), more);
      TrimmedAppend(Lines(st.fed), more);
      assert st.taken + (Trimmed(Lines(st.text)) + Trimmed(more)) ==
        (st.taken + Trimmed(Lines(st.text))) + Trimmed(more);
    case Take =>
      var i := Find(st.text);
      if i < |st.text| {
        FirstLine(st.text);
        TrimmedAppend([st.text[..i]], Lines(st.text[i + 1..]));
        assert Trimmed([st.text[..i]]) == [Trim(st.text[..i])];
      }
  }

  lemma FirstLine(s: string)
    requires Find(s) < |s|
    ensures Lines(s) == [s[..Find(s)]] + Lines(s[Find(s) + 1..]) && Rest(s) == Rest(s[Find(s) + 1..])
  {
    hide Find;
  }

  lemma TrimmedAppend(a: seq<string>, b: seq<string>)
    ensures Trimmed(a + b) == Trimmed(a) + Trimmed(b)
  {
    hide Trim;
  }

  /** However the text is cut and whenever lines are taken, the lines are those of the whole text. */
  lemma {:induction false} RunConserves(st: State, actions: seq<Action>)
    requires Conserved(st)
    ensures Conserved(Run(st, actions))
    decreases |actions|
  {
    hide Conserved, Step;
    if actions != [] {
      StepConserves(st, actions[0]);
      RunConserves(Step(st, actions[0]), actions[1..]);
    }
  }

  class StdoutBuffer {
    var text: string

    constructor ()
      ensures text == ""
    {
      text := "";
    }

    /** `take_complete_line`. */
    method TakeCompleteLine() returns (line: Option<string>)
      modifies this
      ensures line.None? ==> text == old(text) && '\n' !in text
      ensures line.Some? ==> exists raw :: old(text) == raw + ("\n" + text) && '\n' !in raw && line.value == Trim(raw)
      ensures forall fed, taken ::
        Step(State(fed, old(text), taken), Take) == State(fed, text, if line.Some? then taken + [line.value] else taken)
    {
      hide Trim;
      var i := 0;
      while i < |text| && text[i] != '\n'
        invariant i <= |text| && forall j :: 0 <= j < i ==> text[j] != '\n'
      {
        i := i + 1;
      }
      FindUnique(text, i);
      if i == |text| {
        return None;
      }
      ghost var raw := text[..i];
      line := Some(Trim(text[..i]));
      text := text[i + 1..];
      assert old(text) == raw + ("\n" + text);
    }
  }

  /** Appends the chunks one by one and takes whatever lines are complete each time. */
  method DrainChunks(chunks: seq<string>) returns (lines: seq<string>, rest: string)
    ensures lines == Trimmed(Lines(Whole(chunks))) && rest == Rest(Whole(chunks))
  {
    hide Lines, Rest, Trim, Find, Step;
    var buffer := new StdoutBuffer();
    lines := [];
    ghost var st := State("", "", []);
    assert Conserved(st) by { StartConserved(); }
    for i := 0 to |chunks|
      invariant fresh(buffer) && Conserved(st) && st == State(Whole(chunks[..i]), buffer.text, lines)
      invariant '\n' !in buffer.text
    {
      assert chunks[..i + 1] == chunks[..i] + [chunks[i]];
      StepConserves(st, Append(chunks[i]));
      StepIs(st, chunks[i]);
      st := Step(st, Append(chunks[i]));
      buffer.text := buffer.text + chunks[i];
      WholeAppend(chunks[..i], chunks[i]);
      var line := buffer.TakeCompleteLine();
      while line.Some?
        invariant fresh(buffer) && Conserved(st) && st.fed == Whole(chunks[..i + 1])
        invariant Step(st, Take) == State(st.fed, buffer.text, if line.Some? then lines + [line.value] else lines)
        invariant line.None? ==> st.text == buffer.text && '\n' !in buffer.text
        invariant st.taken == lines
        decreases |buffer.text|, line.Some?
      {
        StepConserves(st, Take);
        st := Step(st, Take);
        lines := lines + [line.value];
        line := buffer.TakeCompleteLine();
      }
    }
    assert chunks[..|chunks|] == chunks;
    assert Lines(buffer.text) == [] && Rest(buffer.text) == buffer.text by { NoLineFeed(buffer.text); }
    rest := buffer.text;
  }

  lemma StepIs(st: State, chunk: string)
    ensures Step(st, Append(chunk)) == State(st.fed + chunk, st.text + chunk, st.taken)
  {
  }

  lemma StartConserved()
    ensures Conserved(State("", "", []))
  {
    assert Find("") == 0;
    assert Lines("") == [];
  }

  lemma NoLineFeed(s: string)
    requires '\n' !in s
    ensures Lines(s) == [] && Rest(s) == s
  {
    FindUnique(s, |s|);
  }

  function Whole(chunks: seq<string>): (s: string) {
    if chunks == [] then "" else Whole(chunks[..|chunks| - 1]) + chunks[|chunks| - 1]
  }

  lemma WholeAppend(chunks: seq<string>, chunk: string)
    ensures Whole(chunks + [chunk]) == Whole(chunks) + chunk
  {
    assert (chunks + [chunk])[..|chunks|] == chunks;
  }
}
