/** `check_password_strength(password)`: five criteria over character classes,
    a score, the feedback messages for the failed criteria and a rating.
 */
module PasswordChecker {

  predicate IsLowercase(c: char)
  {
    'a' <= c <= 'z'
  }

  predicate IsUppercase(c: char)
  {
    'A' <= c <= 'Z'
  }

  predicate IsDigit(c: char)
  {
    '0' <= c <= '9'
  }

  /** The characters of the class `[!@#$%^&*(),.?\":{}|<>]`; the backslash only
      escapes the quote and is not itself a member. */
  const SPECIAL_CHARACTERS: string := "!@#$%^&*(),.?\":{}|<>"

  predicate IsSpecial(c: char)
  {
    c in SPECIAL_CHARACTERS
  }

  /** Some character of `password` belongs to the class. */
  ghost predicate Contains(password: string, charClass: char -> bool)
  {
    exists i :: 0 <= i < |password| && charClass(password[i])
  }

  /** `re.search(class, password) is not None`: a left-to-right scan. */
  function Search(password: string, charClass: char -> bool): (found: bool)
    ensures found <==> Contains(password, charClass)
  {
    if |password| == 0 then false
    else if charClass(password[0]) then true
    else
      var rest := Search(password[1..], charClass);
      assert Contains(password[1..], charClass) ==> Contains(password, charClass) by {
        if Contains(password[1..], charClass) {
          var i :| 0 <= i < |password[1..]| && charClass(password[1..][i]);
          assert charClass(password[i + 1]);
        }
      }
      rest
  }

  /** The five error flags, in the order `check_password_strength` lists them. */
  datatype Criteria = Criteria(
    lengthError: bool,
    lowercaseError: bool,
    uppercaseError: bool,
    digitError: bool,
    specialCharError: bool)
  {
    function Errors(): seq<bool>
    {
      [lengthError, lowercaseError, uppercaseError, digitError, specialCharError]
    }
  }

  const MIN_LENGTH: nat := 8

  function Assess(password: string): (c: Criteria)
    ensures c.lengthError <==> |password| < MIN_LENGTH
    ensures c.lowercaseError <==> !Contains(password, IsLowercase)
    ensures c.uppercaseError <==> !Contains(password, IsUppercase)
    ensures c.digitError <==> !Contains(password, IsDigit)
    ensures c.specialCharError <==> !Contains(password, IsSpecial)
  {
    Criteria(
      |password| < MIN_LENGTH,
      !Search(password, IsLowercase),
      !Search(password, IsUppercase),
      !Search(password, IsDigit),
      !Search(password, IsSpecial))
  }

  /** Each flag holds exactly when its criterion fails. */
  lemma AssessCriteria(password: string)
    ensures Assess(password).lengthError <==> |password| < 8
    ensures Assess(password).lowercaseError <==> forall i :: 0 <= i < |password| ==> !('a' <= password[i] <= 'z')
    ensures Assess(password).uppercaseError <==> forall i :: 0 <= i < |password| ==> !('A' <= password[i] <= 'Z')
    ensures Assess(password).digitError <==> forall i :: 0 <= i < |password| ==> !('0' <= password[i] <= '9')
    ensures Assess(password).specialCharError <==> forall i :: 0 <= i < |password| ==> password[i] !in SPECIAL_CHARACTERS
  {
    assert Search(password, IsLowercase) <==> Contains(password, IsLowercase);
    assert Search(password, IsUppercase) <==> Contains(password, IsUppercase);
    assert Search(password, IsDigit) <==> Contains(password, IsDigit);
    assert Search(password, IsSpecial) <==> Contains(password, IsSpecial);
  }

  /** `sum(errors)` */
  function CountTrue(flags: seq<bool>): (n: nat)
    ensures n <= |flags|
    ensures n == 0 <==> forall i :: 0 <= i < |flags| ==> !flags[i]
  {
    if |flags| == 0 then 0
    else CountTrue(flags[..|flags| - 1]) + (if flags[|flags| - 1] then 1 else 0)
  }

  /** `score = 5 - sum(errors)` */
  function Score(password: string): (score: nat)
    ensures score <= 5
    ensures score == 5 <==> Assess(password) == Criteria(false, false, false, false, false)
  {
    var errors := Assess(password).Errors();
    assert Assess(password) == Criteria(errors[0], errors[1], errors[2], errors[3], errors[4]);
    5 - CountTrue(errors)
  }

  const STRONG: string := "Strong \U{2705}"
  const MODERATE: string := "Moderate \U{26A0}\U{FE0F}"
  const WEAK: string := "Weak \U{274C}"

  /** The rating the score earns. */
  function Rating(score: int): (strength: string)
    ensures strength == STRONG <==> score == 5
    ensures strength == MODERATE <==> 3 <= score < 5
    ensures strength == WEAK <==> !(3 <= score <= 5)
  {
    if score == 5 then STRONG
    else if 3 <= score < 5 then MODERATE
    else WEAK
  }

  /** The advice for each criterion, in the order the criteria are checked. */
  const MESSAGES: seq<string> := [
    "Password should be at least 8 characters long.",
    "Add at least one lowercase letter.",
    "Add at least one uppercase letter.",
    "Include at least one number.",
    "Include at least one special character (!,@,#,$, etc.)."
  ]

  /** The messages whose flag is set, in order, appended one flag at a time. */
  function Select(messages: seq<string>, flags: seq<bool>): (chosen: seq<string>)
    requires |messages| == |flags|
    ensures |chosen| == CountTrue(flags)
  {
    if |flags| == 0 then []
    else
      var last := |flags| - 1;
      Select(messages[..last], flags[..last]) + (if flags[last] then [messages[last]] else [])
  }

  ghost predicate Distinct(messages: seq<string>)
  {
    forall i, j :: 0 <= i < j < |messages| ==> messages[i] != messages[j]
  }

  /** With distinct messages, a message is selected exactly when its flag is set. */
  lemma {:induction false} SelectIn(messages: seq<string>, flags: seq<bool>, k: nat)
    requires |messages| == |flags| && Distinct(messages) && k < |flags|
    ensures messages[k] in Select(messages, flags) <==> flags[k]
  {
    var last := |flags| - 1;
    var front := Select(messages[..last], flags[..last]);
    assert Select(messages, flags) == front + (if flags[last] then [messages[last]] else []);
    if k == last {
      SelectFrom(messages[..last], flags[..last], messages[k]);
      assert forall i :: 0 <= i < last ==> messages[..last][i] != messages[k];
    } else {
      SelectIn(messages[..last], flags[..last], k);
    }
  }

  /** Every selected message comes from `messages`. */
  lemma {:induction false} SelectFrom(messages: seq<string>, flags: seq<bool>, m: string)
    requires |messages| == |flags|
    ensures m in Select(messages, flags) ==> m in messages
  {
    if |flags| > 0 {
      var last := |flags| - 1;
      SelectFrom(messages[..last], flags[..last], m);
      if m in messages[..last] {
        var i :| 0 <= i < last && messages[..last][i] == m;
        assert messages[i] == m;
      }
    }
  }

  /** What the feedback and the rating mean: one message per failed criterion,
      in order, so the list is empty exactly when the score is 5; and the
      rating bands of the score. */
  lemma FeedbackAndRating(password: string)
    ensures var feedback := Select(MESSAGES, Assess(password).Errors());
            && |feedback| == 5 - Score(password)
            && (forall k :: 0 <= k < 5 ==> (MESSAGES[k] in feedback <==> Assess(password).Errors()[k]))
            && (feedback == [] <==> Score(password) == 5)
    ensures Rating(Score(password)) == STRONG <==> Score(password) == 5
    ensures Rating(Score(password)) == MODERATE <==> 3 <= Score(password) <= 4
    ensures Rating(Score(password)) == WEAK <==> Score(password) <= 2
  {
    var errors := Assess(password).Errors();
    assert Distinct(MESSAGES);
    forall k | 0 <= k < 5 ensures MESSAGES[k] in Select(MESSAGES, errors) <==> errors[k] {
      SelectIn(MESSAGES, errors, k);
    }
  }

  /** The feedback block: one `append` per failed criterion, in order. */
  method Feedback(lengthError: bool, lowercaseError: bool, uppercaseError: bool,
                  digitError: bool, specialCharError: bool) returns (feedback: seq<string>)
    ensures feedback == Select(MESSAGES, [lengthError, lowercaseError, uppercaseError, digitError, specialCharError])
  {
    ghost var errors := [lengthError, lowercaseError, uppercaseError, digitError, specialCharError];
    feedback := [];
    assert feedback == Select(MESSAGES[..0], errors[..0]);
    SelectStep(MESSAGES, errors, 0);
    if lengthError {
      feedback := feedback + [MESSAGES[0]];
    }
    assert feedback == Select(MESSAGES[..1], errors[..1]);
    SelectStep(MESSAGES, errors, 1);
    if lowercaseError {
      feedback := feedback + [MESSAGES[1]];
    }
    assert feedback == Select(MESSAGES[..2], errors[..2]);
    SelectStep(MESSAGES, errors, 2);
    if uppercaseError {
      feedback := feedback + [MESSAGES[2]];
    }
    assert feedback == Select(MESSAGES[..3], errors[..3]);
    SelectStep(MESSAGES, errors, 3);
    if digitError {
      feedback := feedback + [MESSAGES[3]];
    }
    assert feedback == Select(MESSAGES[..4], errors[..4]);
    SelectStep(MESSAGES, errors, 4);
    if specialCharError {
      feedback := feedback + [MESSAGES[4]];
    }
    assert feedback == Select(MESSAGES[..5], errors[..5]);
    assert MESSAGES[..5] == MESSAGES && errors[..5] == errors;
  }

  /** `check_password_strength`: the rating and the feedback list. */
  method CheckPasswordStrength(password: string) returns (strength: string, feedback: seq<string>)
    ensures feedback == Select(MESSAGES, Assess(password).Errors())
    ensures strength == Rating(Score(password))
    ensures |feedback| == 5 - Score(password)
    ensures forall k :: 0 <= k < 5 ==> (MESSAGES[k] in feedback <==> Assess(password).Errors()[k])
    ensures strength == STRONG <==> feedback == []
  {
    var lengthError := |password| < MIN_LENGTH;
    var lowercaseError := !Search(password, IsLowercase);
    var uppercaseError := !Search(password, IsUppercase);
    var digitError := !Search(password, IsDigit);
    var specialCharError := !Search(password, IsSpecial);

    var errors := [lengthError, lowercaseError, uppercaseError, digitError, specialCharError];
    assert errors == Assess(password).Errors();
    var score := 5 - CountTrue(errors);

    feedback := Feedback(lengthError, lowercaseError, uppercaseError, digitError, specialCharError);

    if score == 5 {
      strength := STRONG;
    } else if 3 <= score < 5 {
      strength := MODERATE;
    } else {
      strength := WEAK;
    }
    FeedbackAndRating(password);
  }

  /** Selecting over one more flag appends that flag's message, if set. */
  lemma SelectStep(messages: seq<string>, flags: seq<bool>, k: nat)
    requires |messages| == |flags| && k < |flags|
    ensures Select(messages[..k + 1], flags[..k + 1])
         == Select(messages[..k], flags[..k]) + (if flags[k] then [messages[k]] else [])
  {
    assert messages[..k + 1][..k] == messages[..k];
    assert flags[..k + 1][..k] == flags[..k];
  }

  /** A character of `password` is still there after appending. */
  lemma ContainsAppend(password: string, more: string, charClass: char -> bool)
    ensures Contains(password, charClass) ==> Contains(password + more, charClass)
  {
    if Contains(password, charClass) {
      var i :| 0 <= i < |password| && charClass(password[i]);
      assert (password + more)[i] == password[i];
    }
  }

  /** Appending characters never adds an error flag; it can only clear them,
      so the score never drops. */
  lemma AppendNeverAddsErrors(password: string, more: string)
    ensures forall k :: 0 <= k < 5 ==> Assess(password + more).Errors()[k] ==> Assess(password).Errors()[k]
    ensures Score(password + more) >= Score(password)
  {
    var p, q := Assess(password), Assess(password + more);
    ContainsAppend(password, more, IsLowercase);
    ContainsAppend(password, more, IsUppercase);
    ContainsAppend(password, more, IsDigit);
    ContainsAppend(password, more, IsSpecial);
    CountMonotone(q.Errors(), p.Errors());
  }

  /** Fewer set flags, pointwise, means a count no larger. */
  lemma {:induction false} CountMonotone(fewer: seq<bool>, more: seq<bool>)
    requires |fewer| == |more|
    requires forall k :: 0 <= k < |fewer| ==> fewer[k] ==> more[k]
    ensures CountTrue(fewer) <= CountTrue(more)
  {
    if |fewer| > 0 {
      var last := |fewer| - 1;
      CountMonotone(fewer[..last], more[..last]);
    }
  }
}
