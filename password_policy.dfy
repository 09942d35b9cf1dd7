/** The password-strength policy of the registration form (app.py, validate_password).

    Five requirements are checked independently and every failed one is
    reported, in the fixed order length, uppercase, lowercase, digit, special
    character. There is no special case for the empty password.
 */
module PasswordPolicy {

  /** The five requirements, in the order their messages are reported. */
  datatype Requirement = MinLength | HasUpper | HasLower | HasDigit | HasSpecial

  /** The character classes searched for by the four regular expressions. */
  datatype CharClass = Upper | Lower | Digit | Special

  const MinPasswordLength: nat := 8

  /** The members of the character class `[!@#$%^&*(),.?:{}|<>]`. */
  const SpecialChars: set<char> :=
    {'!', '@', '#', '$', '%', '^', '&', '*', '(', ')', ',', '.', '?', ':', '{', '}', '|', '<', '>'}

  /** Every requirement, in reporting order. */
  const Requirements: seq<Requirement> := [MinLength, HasUpper, HasLower, HasDigit, HasSpecial]

  const TooShortMessage: string := "Password must be at least 8 characters long."
  const NoUpperMessage: string := "Password must contain at least one uppercase letter."
  const NoLowerMessage: string := "Password must contain at least one lowercase letter."
  const NoDigitMessage: string := "Password must contain at least one number."
  const NoSpecialMessage: string := "Password must contain at least one special character."

  /** Position of a requirement in the reporting order. */
  function Rank(r: Requirement): (k: nat)
    ensures k < |Requirements| && Requirements[k] == r
  {
    match r
    case MinLength => 0
    case HasUpper => 1
    case HasLower => 2
    case HasDigit => 3
    case HasSpecial => 4
  }

  /** The message reported when a requirement fails. */
  function Message(r: Requirement): string
  {
    match r
    case MinLength => TooShortMessage
    case HasUpper => NoUpperMessage
    case HasLower => NoLowerMessage
    case HasDigit => NoDigitMessage
    case HasSpecial => NoSpecialMessage
  }

  /** Membership in a character class; only the ASCII ranges count. */
  predicate InClass(k: CharClass, c: char)
  {
    match k
    case Upper => 'A' <= c <= 'Z'
    case Lower => 'a' <= c <= 'z'
    case Digit => '0' <= c <= '9'
    case Special => c in SpecialChars
  }

  /** Some character of `s` belongs to class `k`. */
  ghost predicate Contains(s: string, k: CharClass)
  {
    exists i :: 0 <= i < |s| && InClass(k, s[i])
  }

  /** `re.search` with a one-class pattern: a left-to-right scan for a
      character of the class. */
  function Search(s: string, k: CharClass): (found: bool)
    ensures found <==> Contains(s, k)
  {
    if s == [] then false
    else if InClass(k, s[0]) then true
    else
      var rest := Search(s[1..], k);
      assert forall i :: 1 <= i < |s| ==> s[i] == s[1..][i - 1];
      rest
  }

  /** Whether `password` meets requirement `r`. */
  ghost predicate Satisfies(password: string, r: Requirement)
  {
    match r
    case MinLength => |password| >= MinPasswordLength
    case HasUpper => Contains(password, Upper)
    case HasLower => Contains(password, Lower)
    case HasDigit => Contains(password, Digit)
    case HasSpecial => Contains(password, Special)
  }

  /** The requirements of `rules` that `holds` rejects, keeping their order. */
  ghost function Failing(holds: Requirement -> bool, rules: seq<Requirement>): seq<Requirement>
  {
    if rules == [] then []
    else Kept(holds, rules[0]) + Failing(holds, rules[1..])
  }

  /** The requirements `password` fails: the subsequence of Requirements
      whose rule does not hold. */
  ghost function Violations(password: string): seq<Requirement>
  {
    Failing(Holds(password), Requirements)
  }

  /** The rule check for `password`, as a predicate on requirements. */
  ghost function Holds(password: string): Requirement -> bool
  {
    r => Satisfies(password, r)
  }

  /** The messages of a sequence of requirements, one per requirement. */
  function Messages(rs: seq<Requirement>): (ms: seq<string>)
    ensures |ms| == |rs|
    ensures forall i :: 0 <= i < |rs| ==> ms[i] == Message(rs[i])
  {
    if rs == [] then [] else [Message(rs[0])] + Messages(rs[1..])
  }

  /** What validate_password returns for `password`. */
  ghost function Validate(password: string): seq<string>
  {
    Messages(Violations(password))
  }

  /** validate_password: each failed check appends its message to `errors`. */
  method ValidatePassword(password: string) returns (errors: seq<string>)
    ensures errors == Validate(password)
  {
    errors := [];
    if |password| < MinPasswordLength {
      errors := errors + [Message(MinLength)];
    }
    assert errors == Report(password, MinLength);
    ghost var e1 := errors;
    if !Search(password, Upper) {
      errors := errors + [Message(HasUpper)];
    }
    assert errors == e1 + Report(password, HasUpper);
    ghost var e2 := errors;
    if !Search(password, Lower) {
      errors := errors + [Message(HasLower)];
    }
    assert errors == e2 + Report(password, HasLower);
    ghost var e3 := errors;
    if !Search(password, Digit) {
      errors := errors + [Message(HasDigit)];
    }
    assert errors == e3 + Report(password, HasDigit);
    ghost var e4 := errors;
    if !Search(password, Special) {
      errors := errors + [Message(HasSpecial)];
    }
    assert errors == e4 + Report(password, HasSpecial);
    ValidateUnfolded(password);
  }

  /** The message of `r` when `password` fails it, otherwise nothing. */
  ghost function Report(password: string, r: Requirement): seq<string>
  {
    if Satisfies(password, r) then [] else [Message(r)]
  }

  /** Validate written out as the five successive checks. */
  lemma ValidateUnfolded(password: string)
    ensures Validate(password) ==
      Report(password, MinLength) + Report(password, HasUpper) + Report(password, HasLower)
      + Report(password, HasDigit) + Report(password, HasSpecial)
  {
    var holds := Holds(password);
    FailingRequirements(holds);
    var c0, c1, c2, c3, c4 := Kept(holds, MinLength), Kept(holds, HasUpper), Kept(holds, HasLower), Kept(holds, HasDigit), Kept(holds, HasSpecial);
    MessagesAppend(c0 + c1 + c2 + c3, c4);
    MessagesAppend(c0 + c1 + c2, c3);
    MessagesAppend(c0 + c1, c2);
    MessagesAppend(c0, c1);
    ReportIsMessages(password, MinLength);
    ReportIsMessages(password, HasUpper);
    ReportIsMessages(password, HasLower);
    ReportIsMessages(password, HasDigit);
    ReportIsMessages(password, HasSpecial);
  }

  /** Report is the message of Kept. */
  lemma ReportIsMessages(password: string, r: Requirement)
    ensures Report(password, r) == Messages(Kept(Holds(password), r))
  {
  }

  /** Messages distributes over concatenation. */
  lemma MessagesAppend(a: seq<Requirement>, b: seq<Requirement>)
    ensures Messages(a + b) == Messages(a) + Messages(b)
  {
    var lhs, rhs := Messages(a + b), Messages(a) + Messages(b);
    forall i | 0 <= i < |a + b|
      ensures lhs[i] == rhs[i]
    {
      if i < |a| {
        assert (a + b)[i] == a[i];
      } else {
        assert (a + b)[i] == b[i - |a|];
      }
    }
  }

  /** `[r]` when `holds` rejects `r`, otherwise nothing. */
  ghost function Kept(holds: Requirement -> bool, r: Requirement): seq<Requirement>
  {
    if holds(r) then [] else [r]
  }

  /** Failing over Requirements, written out rule by rule. */
  lemma FailingRequirements(holds: Requirement -> bool)
    ensures Failing(holds, Requirements) ==
      Kept(holds, MinLength) + Kept(holds, HasUpper) + Kept(holds, HasLower)
      + Kept(holds, HasDigit) + Kept(holds, HasSpecial)
  {
  }

  /** Failing keeps exactly the rules of `rules` that `holds` rejects. */
  lemma {:induction false} FailingMembers(holds: Requirement -> bool, rules: seq<Requirement>, r: Requirement)
    ensures r in Failing(holds, rules) <==> r in rules && !holds(r)
  {
    if rules != [] {
      FailingMembers(holds, rules[1..], r);
      assert rules == [rules[0]] + rules[1..];
    }
  }

  /** Strictly increasing in reporting order (so without repetitions). */
  ghost predicate Ascending(rs: seq<Requirement>)
  {
    forall i, j :: 0 <= i < j < |rs| ==> Rank(rs[i]) < Rank(rs[j])
  }

  /** Failing picks a subsequence: from ascending rules it yields ascending
      rules, and never more of them. */
  lemma {:induction false} FailingAscending(holds: Requirement -> bool, rules: seq<Requirement>)
    requires Ascending(rules)
    ensures Ascending(Failing(holds, rules))
    ensures |Failing(holds, rules)| <= |rules|
  {
    if rules != [] {
      var tail := rules[1..];
      FailingAscending(holds, tail);
      var rest := Failing(holds, tail);
      forall x | x in rest
        ensures Rank(rules[0]) < Rank(x)
      {
        FailingMembers(holds, tail, x);
        var j :| 0 <= j < |tail| && tail[j] == x;
        assert rules[j + 1] == x;
      }
    }
  }

  /** A requirement is reported iff the password fails it. */
  lemma ViolationsExact(password: string, r: Requirement)
    ensures r in Violations(password) <==> !Satisfies(password, r)
  {
    FailingMembers(Holds(password), Requirements, r);
    assert Requirements[Rank(r)] == r;
  }

  /** Each requirement is reported exactly when its character test fails:
      only the length rule looks at the length, and only the ASCII ranges
      and the fixed special set count. */
  lemma ViolationCriteria(password: string)
    ensures MinLength in Violations(password) <==> |password| < 8
    ensures HasUpper in Violations(password) <==>
      forall i :: 0 <= i < |password| ==> !('A' <= password[i] <= 'Z')
    ensures HasLower in Violations(password) <==>
      forall i :: 0 <= i < |password| ==> !('a' <= password[i] <= 'z')
    ensures HasDigit in Violations(password) <==>
      forall i :: 0 <= i < |password| ==> !('0' <= password[i] <= '9')
    ensures HasSpecial in Violations(password) <==>
      forall i :: 0 <= i < |password| ==> password[i] !in SpecialChars
  {
    ViolationsExact(password, MinLength);
    ViolationsExact(password, HasUpper);
    ViolationsExact(password, HasLower);
    ViolationsExact(password, HasDigit);
    ViolationsExact(password, HasSpecial);
  }

  /** The report follows the fixed order, has no repetitions and at most
      five entries. */
  lemma ViolationsOrdered(password: string)
    ensures Ascending(Violations(password))
    ensures forall i, j :: 0 <= i < j < |Violations(password)| ==> Violations(password)[i] != Violations(password)[j]
    ensures |Violations(password)| <= 5
  {
    FailingAscending(Holds(password), Requirements);
  }

  /** Nothing is reported iff all five rules hold. */
  lemma ViolationsEmptyIff(password: string)
    ensures Violations(password) == [] <==> forall r :: Satisfies(password, r)
  {
    if Violations(password) != [] {
      ViolationsExact(password, Violations(password)[0]);
    }
    forall r | Violations(password) == []
      ensures Satisfies(password, r)
    {
      ViolationsExact(password, r);
    }
  }

  /** Different requirements have different messages. */
  lemma MessageInjective(r1: Requirement, r2: Requirement)
    ensures Message(r1) == Message(r2) ==> r1 == r2
  {
    assert NoUpperMessage[35] != NoLowerMessage[35];
  }

  /** A message is among validate_password's output iff its rule fails;
      the output has at most five entries, none repeated, and is empty iff
      every rule holds. */
  lemma ValidateMessages(password: string)
    ensures forall r :: Message(r) in Validate(password) <==> !Satisfies(password, r)
    ensures |Validate(password)| <= 5
    ensures forall i, j :: 0 <= i < j < |Validate(password)| ==> Validate(password)[i] != Validate(password)[j]
    ensures Validate(password) == [] <==> forall r :: Satisfies(password, r)
  {
    var v := Violations(password);
    ViolationsOrdered(password);
    ViolationsEmptyIff(password);
    forall r
      ensures Message(r) in Validate(password) <==> !Satisfies(password, r)
    {
      ViolationsExact(password, r);
      if Message(r) in Validate(password) {
        var i :| 0 <= i < |v| && Validate(password)[i] == Message(r);
        MessageInjective(r, v[i]);
      }
      if r in v {
        var i :| 0 <= i < |v| && v[i] == r;
        assert Validate(password)[i] == Message(r);
      }
    }
    forall i, j | 0 <= i < j < |v|
      ensures Validate(password)[i] != Validate(password)[j]
    {
      MessageInjective(v[i], v[j]);
    }
  }

  /** The character rules depend only on which characters occur, not on how
      many: two passwords with the same characters fail the same character
      rules, whatever their lengths. */
  lemma CharacterRulesIgnoreLength(s: string, t: string)
    requires forall c :: c in s <==> c in t
    ensures forall r :: r != MinLength ==> (r in Violations(s) <==> r in Violations(t))
  {
    forall r | r != MinLength
      ensures r in Violations(s) <==> r in Violations(t)
    {
      ViolationsExact(s, r);
      ViolationsExact(t, r);
      var k := match r
        case HasUpper => Upper
        case HasLower => Lower
        case HasDigit => Digit
        case _ => Special;
      if Contains(s, k) {
        var i :| 0 <= i < |s| && InClass(k, s[i]);
        assert s[i] in t;
      }
      if Contains(t, k) {
        var i :| 0 <= i < |t| && InClass(k, t[i]);
        assert t[i] in s;
      }
    }
  }

  /** A password with all five kinds of character passes, at the minimum length. */
  lemma StrongPasswordPasses()
    ensures Validate("Abcdef1!") == []
  {
    var p := "Abcdef1!";
    assert InClass(Upper, p[0]) && InClass(Lower, p[1]) && InClass(Digit, p[6]) && InClass(Special, p[7]);
    ViolationsEmptyIff(p);
  }

  /** The empty password gets all five messages; it is not singled out. */
  lemma EmptyPasswordFailsAll()
    ensures Validate("") == [TooShortMessage, NoUpperMessage, NoLowerMessage, NoDigitMessage, NoSpecialMessage]
  {
    ValidateUnfolded("");
  }

  /** Space, '-' and '_' are not special characters. */
  lemma OtherPunctuationIsNotSpecial()
    ensures Validate("Abcd1 -_") == [NoSpecialMessage]
  {
    var p := "Abcd1 -_";
    assert InClass(Upper, p[0]) && InClass(Lower, p[1]) && InClass(Digit, p[4]);
    assert forall i :: 0 <= i < |p| ==> p[i] !in SpecialChars;
    assert !Satisfies(p, HasSpecial);
    assert Satisfies(p, MinLength) && Satisfies(p, HasUpper) && Satisfies(p, HasLower) && Satisfies(p, HasDigit);
    ValidateUnfolded(p);
  }

  /** Non-ASCII capitals do not satisfy the uppercase rule. */
  lemma NonAsciiCapitalsDoNotCount()
    ensures Validate("\U{C9}bcdef1!") == [NoUpperMessage]
  {
    var p := "\U{C9}bcdef1!";
    assert InClass(Lower, p[1]) && InClass(Digit, p[6]) && InClass(Special, p[7]);
    assert forall i :: 0 <= i < |p| ==> !InClass(Upper, p[i]);
    assert !Satisfies(p, HasUpper);
    assert Satisfies(p, MinLength) && Satisfies(p, HasLower) && Satisfies(p, HasDigit) && Satisfies(p, HasSpecial);
    ValidateUnfolded(p);
  }
}
