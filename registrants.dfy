/** Registrant profiles and their security questions: the cap on questions, the
    changed answers a save forwards, and the case-insensitive answer and phrase
    checks. */
module Registrants {
  import opened Common

  datatype SecurityQuestion = SecurityQuestion(id: int, question: string, answer: string, answerChanged: bool)

  /** A registrant profile, and the contact record it is saved as. */
  datatype Contact = Contact(
    id: Option<Id>,
    firstName: string,
    lastName: string,
    email: Option<string>,
    restrictedAccess: bool,
    securityQuestions: seq<SecurityQuestion>)

  /** A registrant may have at most this many security questions. */
  const MaxSecurityQuestions := 3

  /** The name notifications are addressed to: "LastName, FirstName". */
  function AddresseeName(c: Contact): string
  {
    c.lastName + ", " + c.firstName
  }

  /** `r` holds the questions of `qs` whose answer changed, in their order, each as
      often as in `qs`, and no other question. */
  ghost predicate ChangedQuestionsOf(r: seq<SecurityQuestion>, qs: seq<SecurityQuestion>)
  {
    IsSubsequence(r, qs) &&
    (forall q :: q in r <==> q in qs && q.answerChanged) &&
    forall q :: multiset(r)[q] == if q.answerChanged then multiset(qs)[q] else 0
  }

  /** The questions SaveRegistrantCommand forwards to UpdateSecurityQuestions: those
      whose answer changed, in their order. */
  function ChangedQuestions(qs: seq<SecurityQuestion>): (r: seq<SecurityQuestion>)
    ensures ChangedQuestionsOf(r, qs)
    ensures r == [] <== forall q :: q in qs ==> !q.answerChanged
    ensures |qs| <= MaxSecurityQuestions ==> |r| <= MaxSecurityQuestions
  {
    var r := Filter(qs, (q: SecurityQuestion) => q.answerChanged);
    FilterCounts(qs, (q: SecurityQuestion) => q.answerChanged);
    SubsequenceElements(r, qs);
    assert r != [] ==> r[0] in r;
    r
  }

  /** A submitted answer is correct when it equals, ignoring case, the answer to any
      of the stored questions; which question it was given for is not compared. */
  predicate AnswerMatchesAny(answer: string, stored: seq<SecurityQuestion>)
  {
    exists q :: q in stored && EqualsIgnoreCase(answer, q.answer)
  }

  /** VerifySecurityQuestionsQuery's count of correct answers: the number of
      submitted answers, repeats included, that match a stored answer. */
  function CountCorrectAnswers(answers: seq<SecurityQuestion>, stored: seq<SecurityQuestion>): (n: nat)
    ensures n == |Filter(answers, (a: SecurityQuestion) => AnswerMatchesAny(a.answer, stored))|
    ensures n <= |answers|
    ensures n == 0 <==> forall a :: a in answers ==> !AnswerMatchesAny(a.answer, stored)
    ensures n == |answers| <==> forall a :: a in answers ==> AnswerMatchesAny(a.answer, stored)
  {
    CountWhere(answers, (a: SecurityQuestion) => AnswerMatchesAny(a.answer, stored))
  }

  /** The count does not depend on letter case: answers that agree ignoring case,
      position by position, get the same count. */
  lemma {:induction false} CountIgnoresLetterCase(answers: seq<SecurityQuestion>, recased: seq<SecurityQuestion>,
                                                  stored: seq<SecurityQuestion>)
    requires |answers| == |recased|
    requires forall i :: 0 <= i < |answers| ==> EqualsIgnoreCase(answers[i].answer, recased[i].answer)
    ensures CountCorrectAnswers(answers, stored) == CountCorrectAnswers(recased, stored)
  {
    if answers != [] {
      CountIgnoresLetterCase(answers[1..], recased[1..], stored);
      var a, b := answers[0].answer, recased[0].answer;
      if AnswerMatchesAny(a, stored) {
        var q :| q in stored && EqualsIgnoreCase(a, q.answer);
        EqualsIgnoreCaseIsEquivalence(b, a, q.answer);
        EqualsIgnoreCaseIsEquivalence(a, b, q.answer);
      }
      if AnswerMatchesAny(b, stored) {
        var q :| q in stored && EqualsIgnoreCase(b, q.answer);
        EqualsIgnoreCaseIsEquivalence(a, b, q.answer);
      }
      assert AnswerMatchesAny(a, stored) <==> AnswerMatchesAny(b, stored);
    }
  }

  /** An example: an answer given for one question counts when it matches another
      question's stored answer. */
  lemma AnswerToAnotherQuestionCounts()
    ensures CountCorrectAnswers([SecurityQuestion(2, "Second", "blue", true)],
                                [SecurityQuestion(1, "First", "BLUE", false), SecurityQuestion(2, "Second", "red", false)]) == 1
  {
  }

  /** VerifySecurityPhraseQuery's comparison: string.Equals with
      StringComparison.OrdinalIgnoreCase, under which two nulls are equal. */
  function SecurityPhraseMatches(stored: Option<string>, given: Option<string>): (isCorrect: bool)
    ensures isCorrect <==> (stored.None? && given.None?) ||
                           (stored.Some? && given.Some? && ToUpper(stored.value) == ToUpper(given.value))
  {
    if stored.Some? && given.Some? then
      EqualsIgnoreCaseIsUpperEquality(stored.value, given.value);
      EqualsIgnoreCase(stored.value, given.value)
    else
      NullableEqualsIgnoreCase(stored, given)
  }
}
