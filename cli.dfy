/** The command-line quiz: each typed answer is compared with the question's
    correct index, and the score is summed up with a verdict. The typed
    numbers are an input sequence; printing is not modelled. */
module Cli {
  import opened Models

  /** How many of the first `n` questions were answered right: the typed
      number minus one is the chosen option index. */
  function CorrectCount(questions: seq<Question>, typed: seq<int>, n: nat): (c: nat)
    requires n <= |questions| && n <= |typed|
    ensures c <= n
  {
    if n == 0 then 0
    else CorrectCount(questions, typed, n - 1)
         + (if typed[n - 1] - 1 == questions[n - 1].correctAnswerIndex then 1 else 0)
  }

  /** The questions among the first `n` whose chosen index is the correct one. */
  function Hits(questions: seq<Question>, typed: seq<int>, n: nat): set<nat>
    requires n <= |questions| && n <= |typed|
  {
    set k: nat | k < n && typed[k] - 1 == questions[k].correctAnswerIndex
  }

  /** The running count is the number of questions answered right. */
  lemma {:induction false} CorrectCountIsHits(questions: seq<Question>, typed: seq<int>, n: nat)
    requires n <= |questions| && n <= |typed|
    ensures CorrectCount(questions, typed, n) == |Hits(questions, typed, n)|
  {
    if n > 0 {
      CorrectCountIsHits(questions, typed, n - 1);
      var before := Hits(questions, typed, n - 1);
      if typed[n - 1] - 1 == questions[n - 1].correctAnswerIndex {
        assert n - 1 !in before;
        assert Hits(questions, typed, n) == before + {n - 1};
      } else {
        assert Hits(questions, typed, n) == before;
      }
    }
  }

  predicate IsDigit(c: char)
  {
    '0' <= c <= '9'
  }

  function DigitChar(d: nat): (c: char)
    requires d < 10
    ensures IsDigit(c)
  {
    ('0' as int + d) as char
  }

  /** The number a string of decimal digits denotes. */
  function DecimalValue(s: string): nat
    requires forall i :: 0 <= i < |s| ==> IsDigit(s[i])
  {
    if s == [] then 0
    else
      assert IsDigit(s[|s| - 1]);
      DecimalValue(s[..|s| - 1]) * 10 + (s[|s| - 1] as int - '0' as int)
  }

  /** Decimal notation, as an f-string prints an `int`: digits only, no
      leading zero, and reading it back gives the number. */
  function NatToString(n: nat): (s: string)
    ensures |s| >= 1 && forall i :: 0 <= i < |s| ==> IsDigit(s[i])
    ensures s[0] == '0' ==> s == "0"
    ensures DecimalValue(s) == n
  {
    if n < 10 then [DigitChar(n)]
    else
      var init := NatToString(n / 10);
      var s := init + [DigitChar(n % 10)];
      assert s[..|s| - 1] == init;
      s
  }

  /** The loop and verdict of `main`: counts the right answers, picks
      "Too bad." when fewer than half are right (`c < len(quiz) / 2` in
      floating point, which is `2 * c < n` on integers) and "Well done!"
      otherwise, and builds the closing line. */
  method Score(quiz: Quiz, typed: seq<int>) returns (correctAnswers: nat, prefix: string, summary: string)
    requires |typed| == quiz.Length()
    ensures correctAnswers == |Hits(quiz.questions, typed, quiz.Length())|
    ensures correctAnswers <= quiz.Length()
    ensures prefix == "Too bad." <==> 2 * correctAnswers < quiz.Length()
    ensures prefix == "Too bad." || prefix == "Well done!"
    ensures summary == prefix + " You scored " + NatToString(correctAnswers) + " out of " + NatToString(quiz.Length())
  {
    correctAnswers := 0;
    var i := 0;
    while i < |quiz.questions|
      invariant 0 <= i <= |quiz.questions|
      invariant correctAnswers == CorrectCount(quiz.questions, typed, i)
    {
      var question := quiz.questions[i];
      var answer := typed[i] - 1;
      if answer == question.correctAnswerIndex {
        correctAnswers := correctAnswers + 1;
      }
      i := i + 1;
    }
    CorrectCountIsHits(quiz.questions, typed, i);
    if (correctAnswers as real) < (quiz.Length() as real) / 2.0 {
      prefix := "Too bad.";
    } else {
      prefix := "Well done!";
    }
    summary := prefix + " You scored " + NatToString(correctAnswers) + " out of " + NatToString(quiz.Length());
  }
}
