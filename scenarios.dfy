/** Worked examples of the quiz pipeline, from the reply text to the verdict. */
module Scenarios {
  import opened Wrappers
  import opened PyText
  import opened Shuffle
  import opened Question
  import opened Tally

  const Reply: string := "What is 2+2? --- 3 --- 5 --- 4"

  /** The draws that leave the answers in place. */
  const KeepOrder: seq<nat> := [2, 1]

  /** No character of `p` is a dash, so the separator cannot start inside `p`. */
  lemma NoDashNoSeparator(p: string, rest: string)
    requires forall i :: 0 <= i < |p| ==> p[i] != '-'
    ensures forall j :: 0 <= j < |p| ==> !MatchAt(p + rest, Delimiter, j)
  {
    forall j | 0 <= j < |p| ensures !MatchAt(p + rest, Delimiter, j) {
      if j + 3 <= |p + rest| {
        assert (p + rest)[j..j + 3][0] == p[j];
      }
    }
  }

  /** A piece without dashes ends right where the separator that follows it starts. */
  lemma SeparatorClosesPiece(p: string)
    requires forall i :: 0 <= i < |p| ==> p[i] != '-'
    ensures Find(p + Delimiter, Delimiter) == Some(|p|)
  {
    NoDashNoSeparator(p, Delimiter);
    assert p + Delimiter + [] == p + Delimiter;
    FirstMatchOfPrefix(p, Delimiter, []);
  }

  /** A string without dashes holds no separator. */
  lemma NoSeparator(p: string)
    requires forall i :: 0 <= i < |p| ==> p[i] != '-'
    ensures Find(p, Delimiter) == None
  {
    NoDashNoSeparator(p, []);
    assert p + [] == p;
    forall j ensures !MatchAt(p, Delimiter, j) {
      if 0 <= j < |p| { assert !MatchAt(p + [], Delimiter, j); }
    }
  }

  /** Dash-free pieces joined by the separator split back into those pieces. */
  lemma SplitJoinedPieces(parts: seq<string>)
    requires parts != []
    requires forall k, i :: 0 <= k < |parts| && 0 <= i < |parts[k]| ==> parts[k][i] != '-'
    ensures Split(Join(parts, Delimiter), Delimiter) == parts
  {
    forall k | 0 <= k < |parts| - 1 ensures Find(parts[k] + Delimiter, Delimiter) == Some(|parts[k]|) {
      SeparatorClosesPiece(parts[k]);
    }
    NoSeparator(parts[|parts| - 1]);
    SplitJoin(parts, Delimiter);
  }

  lemma ReplySegments()
    ensures Split(Reply, Delimiter) == ["What is 2+2? ", " 3 ", " 5 ", " 4"]
  {
    var parts := ["What is 2+2? ", " 3 ", " 5 ", " 4"];
    assert Join(parts, Delimiter) == Reply;
    SplitJoinedPieces(parts);
  }

  lemma StripQuestionExample()
    ensures Strip("What is 2+2? ") == "What is 2+2?"
  {
    assert "" + "What is 2+2?" + " " == "What is 2+2? ";
    StripUnique("", "What is 2+2?", " ");
  }

  lemma StripAnswerExamples()
    ensures Strip(" 3 ") == "3" && Strip(" 5 ") == "5" && Strip(" 4") == "4"
  {
    assert Strip(" 3 ") == "3" by {
      assert " " + "3" + " " == " 3 ";
      StripUnique(" ", "3", " ");
    }
    assert Strip(" 5 ") == "5" by {
      assert " " + "5" + " " == " 5 ";
      StripUnique(" ", "5", " ");
    }
    assert Strip(" 4") == "4" by {
      assert " " + "4" + "" == " 4";
      StripUnique(" ", "4", "");
    }
  }

  /** With the order kept, the answers of the example reply stay 3, 5, 4. */
  lemma AnswersExample(parts: seq<string>)
    requires parts == ["What is 2+2? ", " 3 ", " 5 ", " 4"]
    ensures Answers(parts, KeepOrder) == ["3", "5", "4"]
  {
    StripAnswerExamples();
    var u := Unshuffled(parts);
    assert u == ["3", "5", "4"];
    LastCanLandAnywhere(u, 2);
  }

  /** The example's segments, once cut, give the expected question record. */
  lemma SegmentsExample(parts: seq<string>)
    requires parts == ["What is 2+2? ", " 3 ", " 5 ", " 4"]
    ensures ValidPicks(3, KeepOrder)
    ensures FromSegments(parts, KeepOrder)
      == Success(QuestionData("What is 2+2?",
                              [KeycapOne + " " + "3", KeycapTwo + " " + "5", KeycapThree + " " + "4"],
                              KeycapThree))
  {
    StripQuestionExample();
    AnswersExample(parts);
    StripAnswerExamples();
    var answers := Answers(parts, KeepOrder);
    assert Strip(parts[3]) == "4" == answers[2];
    FirstIndexOfUnique(answers, "4", 2);
    assert Emojis[2] == KeycapThree;
  }

  /**
   * The reply "What is 2+2? --- 3 --- 5 --- 4" with the order kept gives the
   * question "What is 2+2?", the choices 3, 5 and 4 under markers 1, 2 and 3,
   * and marker 3 as the correct one.
   */
  lemma ParseExample()
    ensures ValidPicks(3, KeepOrder)
    ensures QuestionOf(Reply, KeepOrder)
      == Success(QuestionData("What is 2+2?",
                              [KeycapOne + " " + "3", KeycapTwo + " " + "5", KeycapThree + " " + "4"],
                              KeycapThree))
  {
    ReplySegments();
    SegmentsExample(Split(Reply, Delimiter));
  }

  /**
   * Five dashes in a row hold one separator, as `str.count` counts: after the
   * match the scan resumes past it, so the reply has two segments and the
   * parse fails naming segment 2.
   */
  lemma FiveDashesExample()
    ensures Count("a-----b", Delimiter) == 1
    ensures QuestionOf("a-----b", KeepOrder) == Failure(IndexOutOfRange(2))
  {
    var s := "a-----b";
    assert s[1..] == "-----b" && s[1..][3..] == "--b" && "--b"[1..] == "-b";
    assert Count("-b", Delimiter) == 0;
    assert "--b"[..3][2] == 'b';
    assert Count("--b", Delimiter) == 0;
    assert Count("-----b", Delimiter) == 1;
    assert s[..3][0] == 'a';
  }

  /** Raw counts 4, 1, 1 on markers 1, 2, 3 adjust to 3, 0, 0, and marker 1 is the most voted. */
  lemma TallyExample()
    ensures MostVoted(AdjustedCounts([Reaction(Unicode(KeycapOne), 4), Reaction(Unicode(KeycapTwo), 1),
                                      Reaction(Unicode(KeycapThree), 1)]))
            == Some(Unicode(KeycapOne))
  {
    var rs := [Reaction(Unicode(KeycapOne), 4), Reaction(Unicode(KeycapTwo), 1), Reaction(Unicode(KeycapThree), 1)];
    EmojisDistinct();
    assert FirstTopReaction(rs, 0);
    MostVotedDistinctReactions(rs, 0);
  }

  /** An emoji other than the markers wins when it has more votes, and the verdict is Incorrect. */
  lemma OtherEmojiWinsExample()
    ensures MostVoted(AdjustedCounts([Reaction(Unicode(KeycapOne), 1), Reaction(Custom(9), 4)]))
            == Some(Custom(9))
    ensures CloseQuiz(KeycapOne, [Reaction(Unicode(KeycapOne), 1), Reaction(Custom(9), 4)]).0 == Incorrect
  {
    var rs := [Reaction(Unicode(KeycapOne), 1), Reaction(Custom(9), 4)];
    assert FirstTopReaction(rs, 1);
    MostVotedDistinctReactions(rs, 1);
  }

  /** After the example question, four votes for marker 3 (five with the bot's) make the verdict Correct. */
  lemma VerdictExample()
    ensures CloseQuiz(KeycapThree, [Reaction(Unicode(KeycapOne), 1), Reaction(Unicode(KeycapTwo), 1),
                                    Reaction(Unicode(KeycapThree), 5)]).0 == Correct
  {
    var rs := [Reaction(Unicode(KeycapOne), 1), Reaction(Unicode(KeycapTwo), 1), Reaction(Unicode(KeycapThree), 5)];
    EmojisDistinct();
    assert FirstTopReaction(rs, 2);
    MostVotedDistinctReactions(rs, 2);
  }
}
