/** The topic guard `isQuestionRelatedToSanjay` of server.js: a transcript is in scope
    when, lower-cased, it contains one of a fixed list of keywords, lower-cased too. */
module TopicGuard {
  import opened JsString

  /** The keyword list, in the order `some` tries it. */
  const Keywords: seq<string> :=
    ["Sanjay", "Chhaba", "birthday", "born", "education", "career",
     "profession", "background", "experience"]

  /** `keywords.some(k => lowerTranscript.includes(k.toLowerCase()))`. */
  function SomeKeywordIncluded(lowerTranscript: string, keywords: seq<string>): bool
  {
    |keywords| > 0 &&
    (Includes(lowerTranscript, Lower(keywords[0])) || SomeKeywordIncluded(lowerTranscript, keywords[1..]))
  }

  /** The declarative reading of the guard: some keyword, lower-cased, is a
      substring of the lower-cased transcript. No word boundaries, no stemming. */
  ghost predicate MentionsKeyword(transcript: string)
  {
    exists j :: 0 <= j < |Keywords| && Occurs(Lower(Keywords[j]), Lower(transcript))
  }

  /** `isQuestionRelatedToSanjay`. */
  function IsQuestionRelatedToSanjay(transcript: string): bool
  {
    SomeKeywordIncluded(Lower(transcript), Keywords)
  }

  /** The guard says yes exactly when some keyword occurs in the transcript, ignoring case. */
  lemma GuardSpec(transcript: string)
    ensures IsQuestionRelatedToSanjay(transcript) <==> MentionsKeyword(transcript)
  {
    SomeKeywordIncludedIff(Lower(transcript), Keywords);
  }

  lemma {:induction false} SomeKeywordIncludedIff(s: string, keywords: seq<string>)
    ensures SomeKeywordIncluded(s, keywords)
            <==> exists j :: 0 <= j < |keywords| && Occurs(Lower(keywords[j]), s)
    decreases |keywords|
  {
    if |keywords| > 0 {
      IncludesIff(s, Lower(keywords[0]));
      SomeKeywordIncludedIff(s, keywords[1..]);
      if exists j :: 0 <= j < |keywords| && Occurs(Lower(keywords[j]), s) {
        var j :| 0 <= j < |keywords| && Occurs(Lower(keywords[j]), s);
        if j > 0 {
          assert keywords[1..][j - 1] == keywords[j];
        }
      }
      if SomeKeywordIncluded(s, keywords[1..]) {
        var j :| 0 <= j < |keywords[1..]| && Occurs(Lower(keywords[1..][j]), s);
        assert keywords[j + 1] == keywords[1..][j];
      }
    }
  }

  /** The guard cannot tell case variants apart. */
  lemma GuardIgnoresCase(a: string, b: string)
    requires SameIgnoringCase(a, b)
    ensures IsQuestionRelatedToSanjay(a) == IsQuestionRelatedToSanjay(b)
  {
    SameIgnoringCaseLower(a, b);
  }

  /** In particular, upper-casing or lower-casing a transcript never changes its class. */
  lemma GuardIgnoresCaseOf(t: string)
    ensures IsQuestionRelatedToSanjay(Upper(t)) == IsQuestionRelatedToSanjay(t)
    ensures IsQuestionRelatedToSanjay(Lower(t)) == IsQuestionRelatedToSanjay(t)
  {
    CaseVariants(t);
    GuardIgnoresCase(t, Upper(t));
    GuardIgnoresCase(t, Lower(t));
  }

  /** Every transcript that contains a keyword, as written in the list, is in scope
      (other spellings follow from `GuardSpec` and `GuardIgnoresCase`). */
  lemma KeywordInScope(j: int, t: string, i: int)
    requires 0 <= j < |Keywords|
    requires OccursAt(Keywords[j], t, i)
    ensures IsQuestionRelatedToSanjay(t)
  {
    OccursAtLower(Keywords[j], t, i);
    GuardSpec(t);
  }

  /** Containment is monotone: a transcript containing an in-scope one is in scope. */
  lemma {:induction false} GuardMonotone(t: string, u: string)
    requires Occurs(t, u)
    requires IsQuestionRelatedToSanjay(t)
    ensures IsQuestionRelatedToSanjay(u)
  {
    GuardSpec(t);
    GuardSpec(u);
    var j :| 0 <= j < |Keywords| && Occurs(Lower(Keywords[j]), Lower(t));
    var i :| OccursAt(Lower(Keywords[j]), Lower(t), i);
    var p :| OccursAt(t, u, p);
    OccursAtLower(t, u, p);
    OccursTransitive(Lower(Keywords[j]), Lower(t), Lower(u), i, p);
  }

  /** Every keyword has one of the letters b, c, j, p, x; a transcript with none
      of them, in either case, is out of scope. */
  lemma OutOfScopeWithoutLetters(t: string)
    requires forall k :: 0 <= k < |t| ==> t[k] !in "bcjpxBCJPX"
    ensures !IsQuestionRelatedToSanjay(t)
  {
    var s := Lower(t);
    assert 'b' !in s && 'c' !in s && 'j' !in s && 'p' !in s && 'x' !in s by {
      forall k | 0 <= k < |s|
        ensures s[k] !in "bcjpx"
      {
        assert t[k] !in "bcjpxBCJPX";
      }
    }
    assert Lower(Keywords[0])[3] == 'j';
    assert Lower(Keywords[1])[0] == 'c';
    assert Lower(Keywords[2])[0] == 'b';
    assert Lower(Keywords[3])[0] == 'b';
    assert Lower(Keywords[4])[3] == 'c';
    assert Lower(Keywords[5])[0] == 'c';
    assert Lower(Keywords[6])[0] == 'p';
    assert Lower(Keywords[7])[0] == 'b';
    assert Lower(Keywords[8])[1] == 'x';
    var missing := [3, 0, 0, 0, 3, 0, 0, 0, 1];
    forall j | 0 <= j < |Keywords|
      ensures !Occurs(Lower(Keywords[j]), s)
    {
      MissingLetterExcludes(Lower(Keywords[j]), s, missing[j]);
    }
    GuardSpec(t);
  }

  /** A string containing a character that `s` lacks does not occur in `s`. */
  lemma MissingLetterExcludes(t: string, s: string, k: int)
    requires 0 <= k < |t| && t[k] !in s
    ensures !Occurs(t, s)
  {
  }
}

/** The two example questions, and the missing word-boundary check, worked out. */
module GuardExamples {
  import opened JsString
  import opened TopicGuard

  /** The in-scope question used as an example: it names Sanjay and his birthday. */
  lemma BirthdayQuestionInScope()
    ensures IsQuestionRelatedToSanjay("What is Sanjay's birthday?")
  {
    KeywordInScope(0, "What is Sanjay's birthday?", 8);
  }

  /** There is no word-boundary check: "stubborn" contains "born". */
  lemma NoWordBoundary()
    ensures IsQuestionRelatedToSanjay("Why are you so stubborn?")
  {
    KeywordInScope(3, "Why are you so stubborn?", 19);
  }

  /** The out-of-scope question used as an example. The question comes in as a
      parameter so that the verifier does not unfold the guard on the literal itself. */
  lemma WeatherQuestionOutOfScope(t: string)
    requires t == "What's the weather today?"
    ensures !IsQuestionRelatedToSanjay(t)
  {
    OutOfScopeWithoutLetters(t);
  }
}
