/**
 * The part of `generate_daily_python_question` that runs after the completion
 * service has replied: cut the reply into question and options, shuffle the
 * options, find where the correct one went, and label the options with the
 * keycap markers users react with.
 */
module Question {
  import opened Wrappers
  import opened PyText
  import opened Shuffle

  /** The separator the reply format puts between its four fields. */
  const Delimiter: string := "---"

  /** The keycap emoji 1, 2 and 3 (digit, variation selector 16, combining enclosing keycap). */
  const KeycapOne: string := "1\U{FE0F}\U{20E3}"
  const KeycapTwo: string := "2\U{FE0F}\U{20E3}"
  const KeycapThree: string := "3\U{FE0F}\U{20E3}"
  const Emojis: seq<string> := [KeycapOne, KeycapTwo, KeycapThree]

  /** The dictionary the generator returns: the question, three labelled choices, the correct marker. */
  datatype QuestionData = QuestionData(question: string, choices: seq<string>, correct: string)

  /** The `IndexError` raised when `parts_of_message[index]` does not exist. */
  datatype ParseError = IndexOutOfRange(index: nat)

  /** `[opt_1, opt_2, correct]`, the answers before the shuffle. */
  function Unshuffled(parts: seq<string>): (u: seq<string>)
    requires |parts| >= 4
    ensures |u| == 3 && u[2] == Strip(parts[3])
  {
    [Strip(parts[1]), Strip(parts[2]), Strip(parts[3])]
  }

  /** The index the `for`/`enumerate` loop stops at: the first position holding `x`. */
  function FirstIndexOf(s: seq<string>, x: string): (i: nat)
    requires x in s
    ensures i < |s| && s[i] == x
    ensures forall j :: 0 <= j < i ==> s[j] != x
  {
    if s[0] == x then 0 else 1 + FirstIndexOf(s[1..], x)
  }

  /** A position holding `x` with no `x` before it is the one `FirstIndexOf` finds. */
  lemma {:induction false} FirstIndexOfUnique(s: seq<string>, x: string, i: nat)
    requires i < |s| && s[i] == x
    requires forall j :: 0 <= j < i ==> s[j] != x
    ensures FirstIndexOf(s, x) == i
  {
    if i > 0 {
      assert s[1..][i - 1] == x;
      FirstIndexOfUnique(s[1..], x, i - 1);
    }
  }

  /** The displayed choice `f"{emojis[i]} {answer}"`: its marker, one space, then the answer text. */
  function Choice(i: nat, answer: string): (c: string)
    requires i < 3
    ensures |c| == 4 + |answer|
    ensures c[..3] == Emojis[i] && c[3] == ' ' && c[4..] == answer
  {
    EmojisDistinct();
    var c := Emojis[i] + " " + answer;
    assert c == Emojis[i] + (" " + answer);
    c
  }

  /** The shuffled answers, for a reply cut into at least four segments. */
  function Answers(parts: seq<string>, picks: seq<nat>): (answers: seq<string>)
    requires |parts| >= 4 && ValidPicks(3, picks)
    ensures |answers| == 3
    ensures multiset(answers) == multiset{Strip(parts[1]), Strip(parts[2]), Strip(parts[3])}
  {
    var u := Unshuffled(parts);
    assert multiset(u) == multiset{Strip(parts[1]), Strip(parts[2]), Strip(parts[3])};
    Shuffled(u, picks)
  }

  /** What the generator returns once the reply is cut into `parts`. */
  function FromSegments(parts: seq<string>, picks: seq<nat>): (r: Result<QuestionData, ParseError>)
    requires ValidPicks(3, picks)
    ensures r.Failure? <==> |parts| < 4
    ensures r.Failure? ==> r.error == IndexOutOfRange(|parts|)
    ensures r.Success? ==> r.value.question == Strip(parts[0]) && |r.value.choices| == 3
    ensures r.Success? ==> r.value.correct in Emojis
  {
    if |parts| < 4 then Failure(IndexOutOfRange(|parts|))
    else
      var correct := Strip(parts[3]);
      var answers := Answers(parts, picks);
      assert correct in multiset(answers);
      var ci := FirstIndexOf(answers, correct);
      Success(QuestionData(Strip(parts[0]),
                           [Choice(0, answers[0]), Choice(1, answers[1]), Choice(2, answers[2])],
                           Emojis[ci]))
  }

  /**
   * What the generator returns for `reply` when the shuffle draws `picks`.
   * It fails exactly when the reply holds fewer than three separators (as
   * `str.count` counts them), and then the missing index is one past that count.
   */
  function QuestionOf(reply: string, picks: seq<nat>): (r: Result<QuestionData, ParseError>)
    requires ValidPicks(3, picks)
    ensures r.Failure? <==> Count(reply, Delimiter) < 3
    ensures r.Failure? ==> r.error == IndexOutOfRange(Count(reply, Delimiter) + 1)
  {
    FromSegments(Split(reply, Delimiter), picks)
  }

  /**
   * The `for i, answer in enumerate(answers)` loop: the first position whose
   * answer equals `correct`, starting from the default `correct_index = 2`.
   */
  method LocateCorrect(answers: array<string>, correct: string) returns (correctIndex: nat)
    requires answers.Length == 3
    requires correct in answers[..]
    ensures correctIndex < 3 && answers[correctIndex] == correct
    ensures forall j :: 0 <= j < correctIndex ==> answers[j] != correct
  {
    ghost var firstAt := FirstIndexOf(answers[..], correct);
    correctIndex := 2;
    for i := 0 to 3
      invariant i <= firstAt
      invariant correctIndex == 2
      invariant forall j :: 0 <= j < i ==> answers[j] != correct
    {
      if answers[i] == correct {
        correctIndex := i;
        break;
      }
    }
  }

  /** `generate_daily_python_question`, from the reply text on. */
  method GenerateQuestion(reply: string, picks: seq<nat>) returns (r: Result<QuestionData, ParseError>)
    requires ValidPicks(3, picks)
    ensures r == QuestionOf(reply, picks)
  {
    var parts := Split(reply, Delimiter);
    if |parts| < 4 {
      return Failure(IndexOutOfRange(|parts|));
    }
    var q := BuildQuestion(parts, picks);
    return Success(q);
  }

  /** The generator once the reply is cut into at least four segments. */
  method BuildQuestion(parts: seq<string>, picks: seq<nat>) returns (q: QuestionData)
    requires ValidPicks(3, picks) && |parts| >= 4
    ensures Success(q) == FromSegments(parts, picks)
  {
    var question := Strip(parts[0]);
    var opt1 := Strip(parts[1]);
    var opt2 := Strip(parts[2]);
    var correct := Strip(parts[3]);

    var answers := new string[3] [opt1, opt2, correct];
    assert answers[..] == Unshuffled(parts) by {
      assert answers[..] == [opt1, opt2, correct];
    }
    ShuffleInPlace(answers, picks);
    ghost var shuffled := Answers(parts, picks);
    assert answers[..] == shuffled;
    assert correct in multiset(answers[..]) by {
      assert multiset(shuffled) == multiset{opt1, opt2, correct};
    }
    var correctIndex := LocateCorrect(answers, correct);

    var correctEmoji := Emojis[correctIndex];
    var choices := [Emojis[0] + " " + answers[0], Emojis[1] + " " + answers[1], Emojis[2] + " " + answers[2]];
    SegmentsRecord(parts, picks, correctIndex);
    return QuestionData(question, choices, correctEmoji);
  }

  /** The record built from the shuffled answers and the first position of the correct one. */
  lemma SegmentsRecord(parts: seq<string>, picks: seq<nat>, ci: nat)
    requires ValidPicks(3, picks) && |parts| >= 4
    requires ci < 3 && Answers(parts, picks)[ci] == Strip(parts[3])
    requires forall j :: 0 <= j < ci ==> Answers(parts, picks)[j] != Strip(parts[3])
    ensures var answers := Answers(parts, picks);
      FromSegments(parts, picks)
        == Success(QuestionData(Strip(parts[0]),
                                [Emojis[0] + " " + answers[0], Emojis[1] + " " + answers[1],
                                 Emojis[2] + " " + answers[2]],
                                Emojis[ci]))
  {
    FirstIndexOfUnique(Answers(parts, picks), Strip(parts[3]), ci);
  }

  /**
   * With at least four segments the question is the first one stripped, and
   * each of the three choices is its marker, a space and the answer at its
   * position; those answers are a permutation of the stripped segments 1, 2, 3.
   */
  lemma ParsedQuestion(parts: seq<string>, picks: seq<nat>)
    requires ValidPicks(3, picks)
    requires |parts| >= 4
    ensures var answers := Answers(parts, picks);
      var q := FromSegments(parts, picks);
      && q.Success?
      && q.value.question == Strip(parts[0])
      && multiset(answers) == multiset{Strip(parts[1]), Strip(parts[2]), Strip(parts[3])}
      && |q.value.choices| == 3
      && forall i :: 0 <= i < 3 ==> q.value.choices[i] == Emojis[i] + " " + answers[i]
  {
  }

  /** The three markers are distinct, and each is three characters long. */
  lemma EmojisDistinct()
    ensures forall i, j :: 0 <= i < 3 && 0 <= j < 3 && Emojis[i] == Emojis[j] ==> i == j
    ensures forall i :: 0 <= i < 3 ==> |Emojis[i]| == 3
  {
    assert Emojis[0][0] == '1' && Emojis[1][0] == '2' && Emojis[2][0] == '3';
  }

  /**
   * The stored marker is the marker of the first position holding the correct
   * text, and the choice at that position reads the marker, a space and the
   * correct text.
   */
  lemma CorrectMarkerFirstMatch(parts: seq<string>, picks: seq<nat>)
    requires ValidPicks(3, picks)
    requires |parts| >= 4
    ensures var correct := Strip(parts[3]);
      var answers := Answers(parts, picks);
      var q := FromSegments(parts, picks).value;
      && FromSegments(parts, picks).Success?
      && q.correct in Emojis
      && forall i :: 0 <= i < 3 && Emojis[i] == q.correct ==>
           && answers[i] == correct
           && (forall j :: 0 <= j < i ==> answers[j] != correct)
           && q.choices[i] == q.correct + " " + correct
  {
    EmojisDistinct();
  }

  predicate StartsWith(s: string, prefix: string) {
    |prefix| <= |s| && s[..|prefix|] == prefix
  }

  /** Exactly one choice starts with the stored correct marker. */
  lemma OneChoiceCarriesMarker(parts: seq<string>, picks: seq<nat>)
    requires ValidPicks(3, picks)
    requires |parts| >= 4
    ensures var q := FromSegments(parts, picks).value;
      && FromSegments(parts, picks).Success?
      && |q.choices| == 3
      && forall i :: 0 <= i < 3 ==> (StartsWith(q.choices[i], q.correct) <==> Emojis[i] == q.correct)
  {
    var answers := Answers(parts, picks);
    EmojisDistinct();
  }

  /** Only the first four segments matter: the reply cut after its fourth segment gives the same question. */
  lemma ExtraSegmentsIgnored(reply: string, picks: seq<nat>)
    requires ValidPicks(3, picks)
    requires |Split(reply, Delimiter)| >= 4
    ensures QuestionOf(Join(Split(reply, Delimiter)[..4], Delimiter), picks) == QuestionOf(reply, picks)
  {
    var parts := Split(reply, Delimiter);
    SplitPrefixBack(reply, Delimiter, 4);
    FirstFourSegments(parts, picks);
  }

  /** The generator reads only segments 0 to 3. */
  lemma FirstFourSegments(parts: seq<string>, picks: seq<nat>)
    requires ValidPicks(3, picks)
    requires |parts| >= 4
    ensures FromSegments(parts[..4], picks) == FromSegments(parts, picks)
  {
    var head := parts[..4];
    assert head[0] == parts[0] && head[1] == parts[1] && head[2] == parts[2] && head[3] == parts[3];
    assert Unshuffled(head) == Unshuffled(parts);
    assert Answers(head, picks) == Answers(parts, picks);
  }

  /**
   * When neither wrong option repeats the correct text, every marker can end up
   * as the correct one: the draws `[t, 1]` make marker `t` correct.
   */
  lemma EachMarkerReachable(parts: seq<string>, t: nat)
    requires t < 3
    requires |parts| >= 4
    requires Strip(parts[1]) != Strip(parts[3]) && Strip(parts[2]) != Strip(parts[3])
    ensures ValidPicks(3, [t, 1])
    ensures FromSegments(parts, [t, 1]).Success?
    ensures FromSegments(parts, [t, 1]).value.correct == Emojis[t]
  {
    LastCanLandAnywhere(Unshuffled(parts), t);
    FirstIndexOfUnique(Answers(parts, [t, 1]), Strip(parts[3]), t);
  }

  /** When all three options have the same text, the first marker is always the correct one. */
  lemma IdenticalOptionsMarkFirst(parts: seq<string>, picks: seq<nat>)
    requires ValidPicks(3, picks)
    requires |parts| >= 4
    requires Strip(parts[1]) == Strip(parts[3]) && Strip(parts[2]) == Strip(parts[3])
    ensures FromSegments(parts, picks).Success?
    ensures FromSegments(parts, picks).value.correct == KeycapOne
  {
    var c := Strip(parts[3]);
    var answers := Answers(parts, picks);
    assert answers[0] in multiset(answers);
    FirstIndexOfUnique(answers, c, 0);
  }
}
