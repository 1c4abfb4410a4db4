/** The parsers for questions and expected answers sent as one concatenated
    string: questions separated by "?,", answer groups separated by ",", the
    alternatives of a group separated by whitespace. Only the first entry of
    the incoming list is read. */
module Concat {
  import opened Builtins
  import opened Text

  const QuestionSeparator: string := "?,"
  const GroupSeparator: string := ","

  /** Every piece is blank. */
  predicate AllBlank(pieces: seq<string>) {
    forall k | 0 <= k < |pieces| :: Blank(pieces[k])
  }

  /** The pieces that are not blank, in order: the `if piece.strip()` filter. */
  function NonBlank(pieces: seq<string>): (r: seq<string>)
    ensures |r| <= |pieces|
    ensures forall k | 0 <= k < |r| :: !Blank(r[k])
    ensures r == [] <==> AllBlank(pieces)
  {
    if pieces == [] then []
    else if Blank(pieces[0]) then
      var rest := NonBlank(pieces[1..]);
      assert forall k | 0 < k < |pieces| :: pieces[k] == pieces[1..][k - 1];
      rest
    else [pieces[0]] + NonBlank(pieces[1..])
  }

  /** The filter works piece by piece, so it keeps the order of the pieces:
      filtering a concatenation concatenates the filtered parts. */
  lemma {:induction false} NonBlankAppend(a: seq<string>, b: seq<string>)
    ensures NonBlank(a + b) == NonBlank(a) + NonBlank(b)
    decreases |a|
  {
    if a != [] {
      assert (a + b)[0] == a[0];
      assert (a + b)[1..] == a[1..] + b;
      NonBlankAppend(a[1..], b);
    } else {
      assert a + b == b;
    }
  }

  /** The pieces kept are pieces of the input. */
  lemma {:induction false} NonBlankFrom(pieces: seq<string>)
    ensures forall k | 0 <= k < |NonBlank(pieces)| :: NonBlank(pieces)[k] in pieces
    decreases |pieces|
  {
    if pieces != [] {
      NonBlankFrom(pieces[1..]);
      assert forall x | x in pieces[1..] :: x in pieces;
    }
  }

  /** The comprehension of process_concatenated_questions: every non-blank
      piece, stripped, with a question mark put back. */
  function KeepQuestions(pieces: seq<string>): (r: seq<string>)
    ensures |r| == |NonBlank(pieces)|
    ensures forall k | 0 <= k < |r| :: r[k] == Strip(NonBlank(pieces)[k]) + "?"
  {
    if pieces == [] then []
    else if Blank(pieces[0]) then KeepQuestions(pieces[1..])
    else [Strip(pieces[0]) + "?"] + KeepQuestions(pieces[1..])
  }

  /** questions[-1] = questions[-1][:-1] on the kept list, which raises
      IndexError when nothing was kept. */
  function DropLastMark(kept: seq<string>): (r: Result<seq<string>>)
    ensures r.Err? <==> kept == []
    ensures r.Err? ==> r.error == EmptyIndex
  {
    if |kept| == 0 then Err(EmptyIndex) else Ok(kept[|kept| - 1 := Body(kept[|kept| - 1])])
  }

  /** process_concatenated_questions: split questions[0] on "?,", keep the
      non-blank pieces stripped and with "?" appended, then drop the last
      character of the last one. An empty list, or a string with no
      non-blank piece, raises IndexError. */
  function ParseQuestions(questions: seq<string>): (r: Result<seq<string>>)
    ensures r.Err? ==> r.error == EmptyIndex
    ensures r.Err? <==> (|questions| == 0 || AllBlank(SplitOn(questions[0], QuestionSeparator)))
  {
    if |questions| == 0 then Err(EmptyIndex)
    else DropLastMark(KeepQuestions(SplitOn(questions[0], QuestionSeparator)))
  }

  lemma KeptShape(pieces: seq<string>, r: seq<string>)
    requires DropLastMark(KeepQuestions(pieces)) == Ok(r)
    ensures |r| == |NonBlank(pieces)| >= 1
    ensures forall k | 0 <= k < |r| - 1 :: r[k] == Strip(NonBlank(pieces)[k]) + "?"
    ensures r[|r| - 1] == Strip(NonBlank(pieces)[|r| - 1])
  {
    MarkDropped(KeepQuestions(pieces), NonBlank(pieces), r);
  }

  /** Dropping the mark of the last of the questions kept from `nb`. */
  lemma MarkDropped(kept: seq<string>, nb: seq<string>, r: seq<string>)
    requires |kept| == |nb| && forall k | 0 <= k < |kept| :: kept[k] == Strip(nb[k]) + "?"
    requires DropLastMark(kept) == Ok(r)
    ensures |r| == |nb| >= 1
    ensures forall k | 0 <= k < |r| - 1 :: r[k] == Strip(nb[k]) + "?"
    ensures r[|r| - 1] == Strip(nb[|r| - 1])
  {
    var n := |kept|;
    assert r == kept[n - 1 := Body(kept[n - 1])];
    var last := Strip(nb[n - 1]);
    assert kept[n - 1] == last + "?";
    assert (last + "?")[..|last|] == last;
  }

  /** No kept question is empty or starts with whitespace. */
  lemma KeptClean(pieces: seq<string>, r: seq<string>)
    requires DropLastMark(KeepQuestions(pieces)) == Ok(r)
    ensures forall k | 0 <= k < |r| :: r[k] != [] && !IsSpace(r[k][0])
  {
    KeptShape(pieces, r);
    var nb := NonBlank(pieces);
    forall k | 0 <= k < |r| ensures r[k] != [] && !IsSpace(r[k][0]) {
      var piece := Strip(nb[k]);
      assert piece != [] && !IsSpace(piece[0]) by {
        assert !Blank(nb[k]);
      }
      if k < |r| - 1 {
        assert r[k] == piece + "?";
      }
    }
  }


  /** A parsed question list has one entry per non-blank piece, in order;
      each entry but the last is the stripped piece followed by "?", and the
      last is the stripped piece alone; no entry is empty or starts with
      whitespace. */
  lemma QuestionsShape(questions: seq<string>, r: seq<string>)
    requires ParseQuestions(questions) == Ok(r)
    ensures |questions| > 0
    ensures |r| == |NonBlank(SplitOn(questions[0], QuestionSeparator))| >= 1
    ensures forall k | 0 <= k < |r| - 1 :: r[k] == Strip(NonBlank(SplitOn(questions[0], QuestionSeparator))[k]) + "?"
    ensures r[|r| - 1] == Strip(NonBlank(SplitOn(questions[0], QuestionSeparator))[|r| - 1])
    ensures forall k | 0 <= k < |r| :: r[k] != [] && !IsSpace(r[k][0])
  {
    KeptShape(SplitOn(questions[0], QuestionSeparator), r);
    KeptClean(SplitOn(questions[0], QuestionSeparator), r);
  }

  lemma SplitTrailingExample()
    ensures SplitOn("A?,B?,", QuestionSeparator) == ["A", "B", ""]
  {
    var s := "A?,B?,";
    assert s[..2][0] == 'A' && s[1..] == "?,B?,";
    assert s[1..][..2] == "?," && s[1..][2..] == "B?,";
    assert "B?,"[..2][0] == 'B' && "B?,"[1..] == "?,";
    assert "?,"[..2] == "?," && "?,"[2..] == "";
    assert SplitOn("", QuestionSeparator) == [""];
    assert SplitOn("?,", QuestionSeparator) == [""] + SplitOn("", QuestionSeparator) == ["", ""];
    var b := SplitOn("?,", QuestionSeparator);
    assert b[0] == "" && b[1..] == [""] && ['B'] + "" == "B";
    assert SplitOn("B?,", QuestionSeparator) == [['B'] + b[0]] + b[1..] == ["B", ""];
    assert SplitOn(s[1..], QuestionSeparator) == [""] + SplitOn("B?,", QuestionSeparator) == ["", "B", ""];
    var a := SplitOn(s[1..], QuestionSeparator);
    assert a[0] == "" && a[1..] == ["B", ""] && ['A'] + "" == "A";
    assert SplitOn(s, QuestionSeparator) == [['A'] + a[0]] + a[1..] == ["A", "B", ""];
  }

  lemma KeepTrailingExample()
    ensures KeepQuestions(["A", "B", ""]) == ["A?", "B?"]
  {
    assert !IsSpace("A"[0]) && !IsSpace("B"[0]);
    assert Blank("") && !Blank("A") && !Blank("B");
    StripStripped("A");
    StripStripped("B");
    assert "A" + "?" == "A?" && "B" + "?" == "B?";
    assert ["A", "B", ""] == ["A"] + ["B", ""] && ["B", ""] == ["B"] + [""];
    KeepQuestionsCons("A", ["B", ""]);
    KeepQuestionsCons("B", [""]);
    assert KeepQuestions([""]) == KeepQuestions([""][1..]) == KeepQuestions([]) == [];
  }

  /** A trailing "?," leaves an empty last piece, so the last question kept
      loses its question mark. */
  lemma TrailingSeparatorDropsMark()
    ensures ParseQuestions(["A?,B?,"]) == Ok(["A?", "B"])
  {
    SplitTrailingExample();
    KeepTrailingExample();
    DropLastMarkSnoc(["A?"], "B?");
    assert ["A?", "B?"] == ["A?"] + ["B?"];
    assert Body("B?") == "B";
    assert ["A?"] + [Body("B?")] == ["A?", "B"];
    assert ParseQuestions(["A?,B?,"]) == DropLastMark(KeepQuestions(["A", "B", ""]));
  }

  /** "a ?,b?" splits into "a " and "b?". */
  lemma SpacedQuestionPieces()
    ensures SplitOn("a ?,b?", QuestionSeparator) == ["a ", "b?"]
  {
    assert !Contains("a ", QuestionSeparator) by {
      assert "a "[0..2][0] == 'a';
    }
    assert !Contains("b?", QuestionSeparator) by {
      assert "b?"[0..2][0] == 'b';
    }
    JoinCons("a ", ["b?"], QuestionSeparator);
    assert "a " + QuestionSeparator + "b?" == "a ?,b?";
    SplitOnJoin(["a ", "b?"], QuestionSeparator);
  }

  /** Strip drops the space after "a". */
  lemma SpacedBodyStrip()
    ensures Strip("a ") == "a"
  {
    assert StripLeft("a ") == "a ";
    assert "a "[..1] == "a";
    assert StripRight("a ") == StripRight("a") == "a";
  }

  /** Those pieces are kept stripped, each with a "?" appended. */
  lemma SpacedQuestionKept()
    ensures KeepQuestions(["a ", "b?"]) == ["a?", "b??"]
  {
    assert !Blank("a ") && !Blank("b?") by {
      assert !IsSpace("a "[0]) && !IsSpace("b?"[0]);
    }
    SpacedBodyStrip();
    StripStripped("b?");
    assert ["a ", "b?"] == ["a "] + ["b?"];
    KeepQuestionsCons("a ", ["b?"]);
    assert ["b?"] == ["b?"] + [];
    KeepQuestionsCons("b?", []);
    assert KeepQuestions([]) == [];
    assert "a" + "?" == "a?" && "b?" + "?" == "b??";
  }

  /** Whitespace before the "?" of a question other than the last is lost:
      the parser strips each piece before putting the mark back. */
  lemma SpacedQuestionAltered()
    ensures ParseQuestions(["a ?,b?"]) == Ok(["a?", "b?"])
  {
    SpacedQuestionPieces();
    SpacedQuestionKept();
    var kept := KeepQuestions(["a ", "b?"]);
    assert Body("b??") == "b?";
    assert kept[1 := Body(kept[1])] == ["a?", "b?"];
    assert ["a ?,b?"][0] == "a ?,b?";
    assert ParseQuestions(["a ?,b?"]) == DropLastMark(kept);
  }

  /** "b?,a ?" splits into "b" and "a ?". */
  lemma SpacedLastPieces()
    ensures SplitOn("b?,a ?", QuestionSeparator) == ["b", "a ?"]
  {
    assert !Contains("b", QuestionSeparator);
    assert !Contains("a ?", QuestionSeparator) by {
      assert "a ?"[0..2][0] == 'a' && "a ?"[1..3][0] == ' ';
    }
    JoinCons("b", ["a ?"], QuestionSeparator);
    assert "b" + QuestionSeparator + "a ?" == "b?,a ?";
    SplitOnJoin(["b", "a ?"], QuestionSeparator);
  }

  /** Both pieces are already stripped, so each only gains a "?". */
  lemma SpacedLastKept()
    ensures KeepQuestions(["b", "a ?"]) == ["b?", "a ??"]
  {
    assert !Blank("b") && !Blank("a ?") by {
      assert !IsSpace("b"[0]) && !IsSpace("a ?"[0]);
    }
    StripStripped("b");
    StripStripped("a ?");
    assert ["b", "a ?"] == ["b"] + ["a ?"];
    KeepQuestionsCons("b", ["a ?"]);
    assert ["a ?"] == ["a ?"] + [];
    KeepQuestionsCons("a ?", []);
    assert KeepQuestions([]) == [];
    assert "b" + "?" == "b?" && "a ?" + "?" == "a ??";
  }

  /** The same question in last place comes back unchanged, because the
      mark dropped from it is the one the parser added. */
  lemma SpacedLastQuestionKept()
    ensures ParseQuestions(["b?,a ?"]) == Ok(["b?", "a ?"])
  {
    SpacedLastPieces();
    SpacedLastKept();
    var kept := KeepQuestions(["b", "a ?"]);
    assert Body("a ??") == "a ?";
    assert kept[1 := Body(kept[1])] == ["b?", "a ?"];
    assert ["b?,a ?"][0] == "b?,a ?";
    assert ParseQuestions(["b?,a ?"]) == DropLastMark(kept);
  }

  /** A question as a client would write it: it ends in "?", the text
      before that mark is stripped and not blank, and it does not contain
      the separator. */
  predicate WellFormedQuestion(q: string) {
    QuestionText(q) && !Contains(q, QuestionSeparator)
  }

  /** It ends in "?" and the text before that mark is stripped and not blank. */
  predicate QuestionText(q: string) {
    |q| > 0 && q[|q| - 1] == '?' && Stripped(Body(q)) && !Blank(Body(q))
  }

  /** Every question of the list has the text shape above. */
  predicate AllQuestionText(qs: seq<string>) {
    qs == [] || (QuestionText(qs[0]) && AllQuestionText(qs[1..]))
  }

  lemma {:induction false} AllQuestionTextOf(qs: seq<string>)
    requires forall k | 0 <= k < |qs| :: WellFormedQuestion(qs[k])
    ensures AllQuestionText(qs)
    decreases |qs|
  {
    if qs != [] {
      assert WellFormedQuestion(qs[0]);
      assert forall k | 0 <= k < |qs| - 1 :: qs[1..][k] == qs[k + 1];
      AllQuestionTextOf(qs[1..]);
    }
  }

  /** Python's q[:-1]: the string without its final character. */
  function Body(q: string): string {
    SliceTo(q, -1)
  }

  /** The pieces that splitting ",".join(qs) on "?," produces: every body
      but the last question, which keeps its mark. */
  function QuestionPieces(qs: seq<string>): (r: seq<string>)
    requires |qs| >= 1
    ensures |r| == |qs|
  {
    if |qs| == 1 then [qs[0]] else [Body(qs[0])] + QuestionPieces(qs[1..])
  }

  lemma {:induction false} JoinQuestionPieces(qs: seq<string>)
    requires |qs| >= 1 && AllQuestionText(qs)
    ensures Join(qs, GroupSeparator) == Join(QuestionPieces(qs), QuestionSeparator)
    decreases |qs|
  {
    if |qs| > 1 {
      JoinQuestionPieces(qs[1..]);
      var q := qs[0];
      WellFormedParts(q);
      var p := QuestionPieces(qs);
      assert p[1..] == QuestionPieces(qs[1..]);
      assert Join(qs, GroupSeparator) == Body(q) + "?" + "," + Join(qs[1..], GroupSeparator);
      assert Body(q) + "?" + "," == Body(q) + QuestionSeparator;
    }
  }

  /** What a well-formed question is made of: its body and its mark, both
      already stripped and neither blank. */
  lemma WellFormedParts(q: string)
    requires QuestionText(q)
    ensures q == Body(q) + "?"
    ensures !Blank(q) && !Blank(Body(q))
    ensures Strip(q) == q && Strip(Body(q)) == Body(q)
  {
    assert Body(q) == q[..|q| - 1];
    assert q == q[..|q| - 1] + [q[|q| - 1]];
    assert !Blank(q) by {
      var i :| 0 <= i < |Body(q)| && !IsSpace(Body(q)[i]);
      assert q[i] == Body(q)[i];
    }
    StripStripped(Body(q));
    StripStripped(q);
  }

  /** KeepQuestions on a list that starts with a non-blank piece. */
  lemma KeepQuestionsCons(p: string, ps: seq<string>)
    requires !Blank(p)
    ensures KeepQuestions([p] + ps) == [Strip(p) + "?"] + KeepQuestions(ps)
  {
    assert ([p] + ps)[1..] == ps;
  }

  /** The first question of the list comes back unchanged. */
  lemma KeepQuestionPiecesHead(front: seq<string>, last: string)
    requires front != [] && QuestionText(front[0])
    ensures KeepQuestions(QuestionPieces(front + [last])) == [front[0]] + KeepQuestions(QuestionPieces(front[1..] + [last]))
  {
    var q := front[0];
    var qs := front + [last];
    assert qs[0] == q && qs[1..] == front[1..] + [last];
    var rest := QuestionPieces(front[1..] + [last]);
    WellFormedParts(q);
    assert QuestionPieces(qs) == [Body(q)] + rest;
    KeepQuestionsCons(Body(q), rest);
  }

  /** The last question comes back with a second question mark. */
  lemma KeepQuestionPiecesLast(last: string)
    requires QuestionText(last)
    ensures KeepQuestions(QuestionPieces([last])) == [last + "?"]
  {
    WellFormedParts(last);
    assert QuestionPieces([last]) == [last] + [];
    KeepQuestionsCons(last, []);
  }

  lemma {:induction false} KeepQuestionPieces(front: seq<string>, last: string)
    requires AllQuestionText(front) && QuestionText(last)
    ensures KeepQuestions(QuestionPieces(front + [last])) == front + [last + "?"]
    decreases |front|
  {
    if front == [] {
      KeepQuestionPiecesLast(last);
      assert front + [last] == [last];
    } else {
      KeepQuestionPiecesHead(front, last);
      KeepQuestionPieces(front[1..], last);
      ConsSnoc(front, last + "?");
    }
  }

  lemma {:induction false} QuestionPiecesAt(qs: seq<string>, k: nat)
    requires k < |qs| - 1
    ensures QuestionPieces(qs)[k] == Body(qs[k])
    decreases k
  {
    if k > 0 {
      QuestionPiecesAt(qs[1..], k - 1);
    }
  }

  /** The last piece is the last question, mark included. */
  lemma {:induction false} QuestionPiecesLast(front: seq<string>, last: string)
    ensures QuestionPieces(front + [last])[|front|] == last
    decreases |front|
  {
    if front != [] {
      assert (front + [last])[1..] == front[1..] + [last];
      QuestionPiecesLast(front[1..], last);
    }
  }

  /** No piece of a well-formed question list contains the separator. */
  lemma QuestionPiecesFree(qs: seq<string>)
    requires |qs| >= 1 && forall k | 0 <= k < |qs| :: WellFormedQuestion(qs[k])
    ensures forall k | 0 <= k < |qs| :: !Contains(QuestionPieces(qs)[k], QuestionSeparator)
  {
    forall k | 0 <= k < |qs| ensures !Contains(QuestionPieces(qs)[k], QuestionSeparator) {
      QuestionPieceFree(qs, k);
    }
  }

  lemma QuestionPieceFree(qs: seq<string>, k: nat)
    requires k < |qs| && forall j | 0 <= j < |qs| :: WellFormedQuestion(qs[j])
    ensures !Contains(QuestionPieces(qs)[k], QuestionSeparator)
  {
    if k < |qs| - 1 {
      QuestionPiecesAt(qs, k);
      BodyFree(qs[k]);
    } else {
      var last := qs[|qs| - 1];
      SnocSplit(qs);
      QuestionPiecesLast(qs[..|qs| - 1], last);
      assert QuestionPieces(qs)[k] == last;
      assert WellFormedQuestion(last);
    }
  }

  /** Dropping the mark keeps a question free of the separator. */
  lemma BodyFree(q: string)
    requires WellFormedQuestion(q)
    ensures !Contains(Body(q), QuestionSeparator)
  {
    PrefixNotContains(q, |q| - 1, QuestionSeparator);
    assert Body(q) == q[..|q| - 1];
  }


  /** Splitting ",".join(qs) on "?," yields the question pieces. */
  lemma SplitJoinedQuestions(qs: seq<string>)
    requires |qs| >= 1 && forall k | 0 <= k < |qs| :: WellFormedQuestion(qs[k])
    ensures SplitOn(Join(qs, GroupSeparator), QuestionSeparator) == QuestionPieces(qs)
  {
    AllQuestionTextOf(qs);
    JoinQuestionPieces(qs);
    QuestionPiecesFree(qs);
    SplitOnJoin(QuestionPieces(qs), QuestionSeparator);
  }

  /** Dropping the mark of the last kept question. */
  lemma DropLastMarkSnoc(front: seq<string>, x: string)
    ensures DropLastMark(front + [x]) == Ok(front + [Body(x)])
  {
    var kept := front + [x];
    assert kept[|kept| - 1] == x;
    assert kept[|kept| - 1 := Body(x)] == front + [Body(x)];
  }

  lemma ParseJoinedQuestions(qs: seq<string>, more: seq<string>)
    requires |qs| >= 1 && forall k | 0 <= k < |qs| :: WellFormedQuestion(qs[k])
    ensures ParseQuestions([Join(qs, GroupSeparator)] + more) == DropLastMark(KeepQuestions(QuestionPieces(qs)))
  {
    SplitJoinedQuestions(qs);
    assert ([Join(qs, GroupSeparator)] + more)[0] == Join(qs, GroupSeparator);
  }

  /** Re-attaching the head of a non-empty sequence in front of its tail
      extended by one element gives the whole sequence extended. */
  lemma ConsSnoc<T>(xs: seq<T>, x: T)
    requires |xs| >= 1
    ensures [xs[0]] + (xs[1..] + [x]) == xs + [x]
  {
  }

  /** A non-empty sequence is its front followed by its last element. */
  lemma SnocSplit<T>(xs: seq<T>)
    requires |xs| >= 1
    ensures xs == xs[..|xs| - 1] + [xs[|xs| - 1]]
  {
  }

  /** Questions joined with "," parse back to themselves, whatever follows
      the first entry of the list. */
  lemma QuestionsRoundTrip(qs: seq<string>, more: seq<string>)
    requires |qs| >= 1 && forall k | 0 <= k < |qs| :: WellFormedQuestion(qs[k])
    ensures ParseQuestions([Join(qs, GroupSeparator)] + more) == Ok(qs)
  {
    var front := qs[..|qs| - 1];
    var last := qs[|qs| - 1];
    SnocSplit(qs);
    assert AllQuestionText(front) && QuestionText(last) by {
      AllQuestionTextOf(front);
      assert WellFormedQuestion(last);
    }
    assert Body(last + "?") == last by {
      assert (last + "?")[..|last|] == last;
    }
    KeepQuestionPieces(front, last);
    DropLastMarkSnoc(front, last + "?");
    ParseJoinedQuestions(qs, more);
  }


  /** The comprehension of process_concatenated_expected_answers: each
      non-blank field, stripped and split on whitespace. */
  function AnswerGroups(fields: seq<string>): (r: seq<seq<string>>)
    ensures |r| == |NonBlank(fields)|
    ensures forall k | 0 <= k < |r| :: r[k] == Words(Strip(NonBlank(fields)[k]))
  {
    if fields == [] then []
    else if Blank(fields[0]) then AnswerGroups(fields[1..])
    else [Words(Strip(fields[0]))] + AnswerGroups(fields[1..])
  }

  /** process_concatenated_expected_answers: split expected_answers[0] on ","
      and turn each non-blank field into its list of alternatives. Only an
      empty list raises. */
  function ParseAnswers(expected: seq<string>): (r: Result<seq<seq<string>>>)
    ensures r.Err? <==> |expected| == 0
    ensures r.Err? ==> r.error == EmptyIndex
  {
    if |expected| == 0 then Err(EmptyIndex) else Ok(AnswerGroups(SplitOn(expected[0], GroupSeparator)))
  }

  /** One group per non-blank field, in order; every group has at least one
      alternative, and every alternative is non-empty with no whitespace
      and no comma. */
  lemma AnswersShape(expected: seq<string>, r: seq<seq<string>>)
    requires ParseAnswers(expected) == Ok(r)
    ensures |expected| > 0 && |r| == |NonBlank(SplitOn(expected[0], GroupSeparator))|
    ensures forall k | 0 <= k < |r| :: |r[k]| > 0
    ensures forall k, j | 0 <= k < |r| && 0 <= j < |r[k]| :: |r[k][j]| > 0 && NoSpace(r[k][j]) && ',' !in r[k][j]
  {
    var fields := SplitOn(expected[0], GroupSeparator);
    var nb := NonBlank(fields);
    SplitOnCharFree(expected[0], ',');
    NonBlankFrom(fields);
    forall k | 0 <= k < |r|
      ensures |r[k]| > 0 && forall j | 0 <= j < |r[k]| :: ',' !in r[k][j]
    {
      var f := nb[k];
      var t := Strip(f);
      assert t != [] && !IsSpace(t[0]);
      WordsOfNonBlank(t);
      WordsChars(t);
      StripChars(f);
      assert ',' !in f;
    }
  }

  /** A blank first entry, the empty string included, gives no groups. */
  lemma BlankAnswers(s: string, more: seq<string>)
    requires Blank(s)
    ensures ParseAnswers([s] + more) == Ok([])
  {
    var fields := SplitOn(s, GroupSeparator);
    SplitOnChars(s, GroupSeparator);
    forall k | 0 <= k < |fields| ensures Blank(fields[k]) {
      forall i | 0 <= i < |fields[k]| ensures IsSpace(fields[k][i]) {
        var c := fields[k][i];
        assert c in fields[k];
        assert c in s;
        var j :| 0 <= j < |s| && s[j] == c;
      }
    }
  }

  /** A group rendered as its space-joined alternatives. */
  function AnswerFields(groups: seq<seq<string>>): (r: seq<string>)
    requires forall k | 0 <= k < |groups| :: |groups[k]| >= 1
    ensures |r| == |groups|
    ensures forall k | 0 <= k < |r| :: r[k] == JoinWords(groups[k])
  {
    if groups == [] then [] else [JoinWords(groups[0])] + AnswerFields(groups[1..])
  }

  /** Alternatives as a client writes them: non-empty, no whitespace, no comma. */
  predicate WellFormedGroups(groups: seq<seq<string>>) {
    forall k | 0 <= k < |groups| ::
      |groups[k]| >= 1 && forall j | 0 <= j < |groups[k]| :: |groups[k][j]| > 0 && NoSpace(groups[k][j]) && ',' !in groups[k][j]
  }

  /** AnswerGroups on a list that starts with a non-blank field. */
  lemma AnswerGroupsCons(f: string, fs: seq<string>)
    requires !Blank(f)
    ensures AnswerGroups([f] + fs) == [Words(Strip(f))] + AnswerGroups(fs)
  {
    assert ([f] + fs)[1..] == fs;
  }

  /** One well-formed group survives the field round trip. */
  lemma GroupOfField(g: seq<string>)
    requires |g| >= 1 && forall j | 0 <= j < |g| :: |g[j]| > 0 && NoSpace(g[j])
    ensures !Blank(JoinWords(g)) && Words(Strip(JoinWords(g))) == g
  {
    JoinWordsStripped(g);
    StripStripped(JoinWords(g));
    WordsJoinWords(g);
  }

  lemma {:induction false} GroupsOfFields(groups: seq<seq<string>>)
    requires WellFormedGroups(groups)
    ensures AnswerGroups(AnswerFields(groups)) == groups
    decreases |groups|
  {
    if groups != [] {
      var g := groups[0];
      GroupOfField(g);
      var rest := AnswerFields(groups[1..]);
      assert AnswerFields(groups) == [JoinWords(g)] + rest;
      AnswerGroupsCons(JoinWords(g), rest);
      assert WellFormedGroups(groups[1..]) by {
        forall k | 0 <= k < |groups| - 1 ensures groups[1..][k] == groups[k + 1] { }
      }
      GroupsOfFields(groups[1..]);
    }
  }

  /** Groups joined with spaces inside and "," between parse back to
      themselves, whatever follows the first entry of the list. */
  lemma AnswersRoundTrip(groups: seq<seq<string>>, more: seq<string>)
    requires |groups| >= 1 && WellFormedGroups(groups)
    ensures ParseAnswers([Join(AnswerFields(groups), GroupSeparator)] + more) == Ok(groups)
  {
    var fields := AnswerFields(groups);
    forall k | 0 <= k < |fields| ensures !Contains(fields[k], GroupSeparator) {
      JoinWordsChars(groups[k], ',');
      ContainsChar(fields[k], ',');
    }
    SplitOnJoin(fields, GroupSeparator);
    GroupsOfFields(groups);
  }
}
