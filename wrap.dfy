/** The greedy word wrap `main` uses to print each quote on the console
    (scripts/analyze_trainer_feedback.py), as written and as evidently intended. */
module ConsoleWrap {
  import opened Text

  /** The line width the wrap aims for. */
  const Width: nat := 70

  /** The loop state: the lines closed so far (as their words), `current_line`
      and `current_length`. */
  datatype WrapState = WrapState(done: seq<seq<string>>, current: seq<string>, length: int)

  /** The words of a sequence of lines, in order. */
  function Flatten(groups: seq<seq<string>>): seq<string> {
    if groups == [] then [] else Flatten(groups[..|groups| - 1]) + groups[|groups| - 1]
  }

  lemma FlattenAppend(groups: seq<seq<string>>, g: seq<string>)
    ensures Flatten(groups + [g]) == Flatten(groups) + g
  {
    assert (groups + [g])[..|groups|] == groups;
  }

  /** `' '.join(current_line)` for every closed line. */
  function Render(groups: seq<seq<string>>): (lines: seq<string>)
    ensures |lines| == |groups|
    ensures forall k :: 0 <= k < |groups| ==> lines[k] == JoinSpace(groups[k])
  {
    seq(|groups|, k requires 0 <= k < |groups| => JoinSpace(groups[k]))
  }

  lemma RenderAppend(groups: seq<seq<string>>, g: seq<string>)
    ensures Render(groups + [g]) == Render(groups) + [JoinSpace(g)]
  {
  }

  /** The lines of the final state: the closed ones, and the current one unless empty. */
  function Close(st: WrapState): seq<seq<string>> {
    if st.current != [] then st.done + [st.current] else st.done
  }

  predicate WordsOk(words: seq<string>) {
    forall k :: 0 <= k < |words| ==> words[k] != [] && NoSpace(words[k])
  }

  /** Lines with two or more words fit the width. */
  predicate LinesFit(groups: seq<seq<string>>) {
    forall k :: 0 <= k < |groups| && |groups[k]| >= 2 ==> JoinedLength(groups[k]) <= Width
  }

  lemma {:induction false} JoinedLengthBounds(g: seq<string>, i: nat)
    requires i < |g|
    ensures |g[i]| <= JoinedLength(g)
    ensures |g| >= 2 ==> |g[i]| < JoinedLength(g)
  {
    if |g| > 1 {
      if i > 0 {
        JoinedLengthBounds(g[1..], i - 1);
      }
    }
  }

  /** A word longer than the width sits alone on its line, whenever lines of two
      or more words fit. */
  lemma LongWordAlone(groups: seq<seq<string>>, k: nat, i: nat)
    requires LinesFit(groups)
    requires k < |groups| && i < |groups[k]| && |groups[k][i]| >= Width
    ensures groups[k] == [groups[k][i]]
  {
    JoinedLengthBounds(groups[k], i);
  }

  // ---------------------------------------------------------------- as written

  /** One iteration of `for word in words` as written: `current_length` counts a
      separator after every word of the first line, and a line is closed even
      when it is still empty. */
  function StepAsWritten(st: WrapState, w: string): WrapState {
    if st.length + |w| + 1 <= Width then WrapState(st.done, st.current + [w], st.length + |w| + 1)
    else WrapState(st.done + [st.current], [w], |w|)
  }

  function RunAsWritten(words: seq<string>): WrapState {
    if words == [] then WrapState([], [], 0)
    else StepAsWritten(RunAsWritten(words[..|words| - 1]), words[|words| - 1])
  }

  lemma RunAsWrittenStep(words: seq<string>, i: nat)
    requires i < |words|
    ensures RunAsWritten(words[..i + 1]) == StepAsWritten(RunAsWritten(words[..i]), words[i])
  {
    assert words[..i + 1][..i] == words[..i];
  }

  /** The lines (as words) the loop as written produces. */
  function GroupsAsWritten(words: seq<string>): seq<seq<string>> {
    Close(RunAsWritten(words))
  }

  /** The word-wrap loop for one quote, as written. */
  method WrapAsWritten(quote: string) returns (lines: seq<string>)
    ensures lines == Render(GroupsAsWritten(Words(quote)))
  {
    var words := Words(quote);
    lines := [];
    var currentLine: seq<string> := [];
    var currentLength := 0;
    for i := 0 to |words|
      invariant RunAsWritten(words[..i]).current == currentLine
      invariant RunAsWritten(words[..i]).length == currentLength
      invariant lines == Render(RunAsWritten(words[..i]).done)
    {
      var word := words[i];
      RunAsWrittenStep(words, i);
      RenderAppend(RunAsWritten(words[..i]).done, currentLine);
      if currentLength + |word| + 1 <= Width {
        currentLine := currentLine + [word];
        currentLength := currentLength + |word| + 1;
      } else {
        lines := lines + [JoinSpace(currentLine)];
        currentLine := [word];
        currentLength := |word|;
      }
    }
    assert words[..|words|] == words;
    RenderAppend(RunAsWritten(words).done, currentLine);
    if currentLine != [] {
      lines := lines + [JoinSpace(currentLine)];
    }
  }

  /** What the loop as written keeps true after the words `prefix`. */
  predicate AsWrittenInv(st: WrapState, prefix: seq<string>) {
    && Flatten(st.done) + st.current == prefix
    && (st.done == [] ==>
          (st.current == [] && st.length == 0)
          || (st.current != [] && st.length == JoinedLength(st.current) + 1))
    && (st.done != [] ==> st.current != [] && st.length == JoinedLength(st.current))
    && (st.length <= Width || |st.current| == 1)
    && LinesFit(st.done)
    && (forall k :: 1 <= k < |st.done| ==> st.done[k] != [])
    && (st.done != [] ==> JoinedLength(st.done[0]) < Width)
    && (st.done != [] && st.done[0] == [] <==> prefix != [] && |prefix[0]| >= Width)
  }

  lemma AsWrittenJoin(st: WrapState, w: string, prefix: seq<string>)
    requires AsWrittenInv(st, prefix) && st.length + |w| + 1 <= Width
    ensures AsWrittenInv(StepAsWritten(st, w), prefix + [w])
  {
    if st.current != [] {
      JoinedLengthAppend(st.current, w);
    }
    if prefix != [] {
      assert (prefix + [w])[0] == prefix[0];
    }
  }

  lemma AsWrittenBreak(st: WrapState, w: string, prefix: seq<string>)
    requires AsWrittenInv(st, prefix) && st.length + |w| + 1 > Width
    ensures AsWrittenInv(StepAsWritten(st, w), prefix + [w])
  {
    FlattenAppend(st.done, st.current);
    var next := StepAsWritten(st, w);
    if prefix != [] {
      assert (prefix + [w])[0] == prefix[0];
    }
    assert next.done == st.done + [st.current];
    assert forall k :: 0 <= k < |st.done| ==> next.done[k] == st.done[k];
  }

  lemma {:induction false} RunAsWrittenInv(words: seq<string>)
    ensures AsWrittenInv(RunAsWritten(words), words)
  {
    if words != [] {
      var init := words[..|words| - 1];
      var w := words[|words| - 1];
      RunAsWrittenInv(init);
      assert init + [w] == words;
      if RunAsWritten(init).length + |w| + 1 <= Width {
        AsWrittenJoin(RunAsWritten(init), w, init);
      } else {
        AsWrittenBreak(RunAsWritten(init), w, init);
      }
    }
  }

  /** The loop as written keeps every word, in order; lines of two or more
      words fit 70 columns; only the first line can be empty, and it is empty
      exactly when the first word has 70 characters or more; a non-empty first
      line is at most 69 characters. */
  lemma GroupsAsWrittenProperties(words: seq<string>)
    ensures var groups := GroupsAsWritten(words);
      && Flatten(groups) == words
      && LinesFit(groups)
      && (forall k :: 1 <= k < |groups| ==> groups[k] != [])
      && (words != [] ==> |groups| > 0 && (groups[0] == [] <==> |words[0]| >= Width))
      && (|groups| > 0 ==> JoinedLength(groups[0]) < Width)
  {
    RunAsWrittenInv(words);
    CloseAsWrittenShape(RunAsWritten(words), words);
    CloseAsWrittenFirst(RunAsWritten(words), words);
  }

  lemma CloseAsWrittenShape(st: WrapState, words: seq<string>)
    requires AsWrittenInv(st, words)
    ensures var groups := Close(st);
      && Flatten(groups) == words
      && LinesFit(groups)
      && (forall k :: 1 <= k < |groups| ==> groups[k] != [])
  {
    var groups := Close(st);
    if st.current != [] {
      FlattenAppend(st.done, st.current);
      assert forall k :: 0 <= k < |st.done| ==> groups[k] == st.done[k];
      assert groups[|st.done|] == st.current;
    } else {
      assert Flatten(st.done) + [] == Flatten(st.done);
    }
  }

  lemma CloseAsWrittenFirst(st: WrapState, words: seq<string>)
    requires AsWrittenInv(st, words)
    ensures var groups := Close(st);
      && (words != [] ==> |groups| > 0 && (groups[0] == [] <==> |words[0]| >= Width))
      && (|groups| > 0 ==> JoinedLength(groups[0]) < Width)
  {
    var groups := Close(st);
    if st.done == [] && st.current != [] {
      assert groups == [st.current];
      assert st.current == words;
    } else if st.done != [] {
      assert groups[0] == st.done[0];
    }
  }

  /** What the console shows: a quote whose first word has 70 characters or
      more (a long link, say) is printed after an empty line. */
  lemma EmptyFirstLineAsWritten(w: string)
    requires |w| >= Width
    ensures Render(GroupsAsWritten([w])) == ["", w]
  {
    assert [w][..0] == [];
    assert RunAsWritten([w]) == WrapState([[]], [w], |w|);
    assert GroupsAsWritten([w]) == [[], [w]];
  }

  // ---------------------------------------------------------------- as intended

  /** One iteration of the greedy wrap with `current_length` equal to the length
      of `' '.join(current_line)`: a word starts the line when it is empty,
      joins it when the line stays within 70 columns, and opens a new line otherwise. */
  function StepFixed(st: WrapState, w: string): WrapState {
    if st.current == [] then WrapState(st.done, [w], |w|)
    else if st.length + 1 + |w| <= Width then WrapState(st.done, st.current + [w], st.length + 1 + |w|)
    else WrapState(st.done + [st.current], [w], |w|)
  }

  function RunFixed(words: seq<string>): WrapState {
    if words == [] then WrapState([], [], 0)
    else StepFixed(RunFixed(words[..|words| - 1]), words[|words| - 1])
  }

  lemma RunFixedStep(words: seq<string>, i: nat)
    requires i < |words|
    ensures RunFixed(words[..i + 1]) == StepFixed(RunFixed(words[..i]), words[i])
  {
    assert words[..i + 1][..i] == words[..i];
  }

  function GroupsFixed(words: seq<string>): seq<seq<string>> {
    Close(RunFixed(words))
  }

  /** The word wrap as evidently intended: every line, the first included, may
      use all 70 columns, and no empty line is printed. */
  method Wrap(quote: string) returns (lines: seq<string>)
    ensures lines == Render(GroupsFixed(Words(quote)))
  {
    var words := Words(quote);
    lines := [];
    var currentLine: seq<string> := [];
    var currentLength := 0;
    for i := 0 to |words|
      invariant RunFixed(words[..i]).current == currentLine
      invariant RunFixed(words[..i]).length == currentLength
      invariant lines == Render(RunFixed(words[..i]).done)
    {
      var word := words[i];
      RunFixedStep(words, i);
      RenderAppend(RunFixed(words[..i]).done, currentLine);
      if currentLine == [] {
        currentLine := [word];
        currentLength := |word|;
      } else if currentLength + 1 + |word| <= Width {
        currentLine := currentLine + [word];
        currentLength := currentLength + 1 + |word|;
      } else {
        lines := lines + [JoinSpace(currentLine)];
        currentLine := [word];
        currentLength := |word|;
      }
    }
    assert words[..|words|] == words;
    RenderAppend(RunFixed(words).done, currentLine);
    if currentLine != [] {
      lines := lines + [JoinSpace(currentLine)];
    }
  }

  /** No line could have taken the first word of the line after it. */
  predicate Greedy(groups: seq<seq<string>>) {
    forall k :: 0 <= k < |groups| - 1 && groups[k + 1] != [] ==>
      JoinedLength(groups[k]) + 1 + |groups[k + 1][0]| > Width
  }

  predicate FixedInv(st: WrapState, prefix: seq<string>) {
    && Flatten(st.done) + st.current == prefix
    && st.length == JoinedLength(st.current)
    && (st.current == [] ==> st.done == [])
    && (st.length <= Width || |st.current| == 1)
    && LinesFit(st.done)
    && (forall k :: 0 <= k < |st.done| ==> st.done[k] != [])
    && Greedy(st.done + [st.current])
  }

  lemma FixedStart(st: WrapState, w: string, prefix: seq<string>)
    requires FixedInv(st, prefix) && st.current == []
    ensures FixedInv(StepFixed(st, w), prefix + [w])
  {
    var next := StepFixed(st, w);
    assert next.done + [next.current] == [[w]];
  }

  lemma FixedJoin(st: WrapState, w: string, prefix: seq<string>)
    requires FixedInv(st, prefix) && st.current != [] && st.length + 1 + |w| <= Width
    ensures FixedInv(StepFixed(st, w), prefix + [w])
  {
    JoinedLengthAppend(st.current, w);
    var next := StepFixed(st, w);
    var before, after := st.done + [st.current], next.done + [next.current];
    forall k | 0 <= k < |after| - 1 && after[k + 1] != []
      ensures JoinedLength(after[k]) + 1 + |after[k + 1][0]| > Width
    {
      assert after[k] == before[k];
      assert after[k + 1][0] == before[k + 1][0];
    }
  }

  lemma FixedBreak(st: WrapState, w: string, prefix: seq<string>)
    requires FixedInv(st, prefix) && st.current != [] && st.length + 1 + |w| > Width
    ensures FixedInv(StepFixed(st, w), prefix + [w])
  {
    FlattenAppend(st.done, st.current);
    var next := StepFixed(st, w);
    var before, after := st.done + [st.current], next.done + [next.current];
    assert after == before + [[w]];
    assert forall k :: 0 <= k < |before| ==> after[k] == before[k];
  }

  lemma {:induction false} RunFixedInv(words: seq<string>)
    ensures FixedInv(RunFixed(words), words)
  {
    if words != [] {
      var init := words[..|words| - 1];
      var w := words[|words| - 1];
      RunFixedInv(init);
      var st := RunFixed(init);
      assert init + [w] == words;
      if st.current == [] {
        FixedStart(st, w, init);
      } else if st.length + 1 + |w| <= Width {
        FixedJoin(st, w, init);
      } else {
        FixedBreak(st, w, init);
      }
    }
  }

  /** The intended wrap keeps every word, in order; lines of two or more words
      fit 70 columns; no line is empty; and no line could have taken the first
      word of the next one. */
  lemma GroupsFixedProperties(words: seq<string>)
    ensures var groups := GroupsFixed(words);
      && Flatten(groups) == words
      && LinesFit(groups)
      && (forall k :: 0 <= k < |groups| ==> groups[k] != [])
      && Greedy(groups)
  {
    var st := RunFixed(words);
    RunFixedInv(words);
    if st.current != [] {
      FlattenAppend(st.done, st.current);
    }
  }

  /** On the console: no printed line of the intended wrap is empty, every line
      of two or more words is at most 70 characters, and splitting each printed
      line again gives back, line after line, the words of the quote. */
  lemma WrapLines(quote: string)
    ensures var groups := GroupsFixed(Words(quote));
      var lines := Render(groups);
      && (forall k :: 0 <= k < |lines| ==> lines[k] != [])
      && (forall k :: 0 <= k < |lines| && |groups[k]| >= 2 ==> |lines[k]| <= Width)
      && (forall k :: 0 <= k < |lines| ==> Words(lines[k]) == groups[k])
      && Flatten(groups) == Words(quote)
  {
    var words := Words(quote);
    WordsAreWords(quote);
    var groups := GroupsFixed(words);
    GroupsFixedProperties(words);
    var lines := Render(groups);
    forall k | 0 <= k < |groups|
      ensures lines[k] != [] && |lines[k]| == JoinedLength(groups[k])
      ensures Words(lines[k]) == groups[k]
    {
      LineOfGroup(words, groups, k);
    }
  }

  /** A non-empty group of words renders to a non-empty line of its joined
      length, which splits back into the group. */
  lemma LineOfGroup(words: seq<string>, groups: seq<seq<string>>, k: nat)
    requires WordsOk(words) && Flatten(groups) == words && k < |groups| && groups[k] != []
    ensures JoinSpace(groups[k]) != [] && |JoinSpace(groups[k])| == JoinedLength(groups[k])
    ensures Words(JoinSpace(groups[k])) == groups[k]
  {
    JoinSpaceLength(groups[k]);
    WordOfGroup(words, groups, k);
    WordsOfJoin(groups[k]);
    JoinedLengthBounds(groups[k], 0);
  }

  /** Every word of a line is one of the words of the quote. */
  lemma WordOfGroup(words: seq<string>, groups: seq<seq<string>>, k: nat)
    requires WordsOk(words) && Flatten(groups) == words && k < |groups|
    ensures forall i :: 0 <= i < |groups[k]| ==> groups[k][i] != [] && NoSpace(groups[k][i])
  {
    forall i | 0 <= i < |groups[k]| ensures groups[k][i] != [] && NoSpace(groups[k][i]) {
      FlattenMember(groups, k, i);
    }
  }

  lemma {:induction false} FlattenMember(groups: seq<seq<string>>, k: nat, i: nat)
    requires k < |groups| && i < |groups[k]|
    ensures groups[k][i] in Flatten(groups)
  {
    var n := |groups| - 1;
    if k < n {
      FlattenMember(groups[..n], k, i);
    } else {
      assert groups[k][i] in groups[n];
    }
  }
}
