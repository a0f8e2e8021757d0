/**
 * The two field validators of the contact form: `validatePhone` (at least
 * ten ASCII digits once every other character is dropped) and
 * `validateEmail` (empty, or a match of `^[^\s@]+@[^\s@]+\.[^\s@]+$`).
 */
module Validators {
  import opened Text

  const MinPhoneDigits := 10

  /** `s.replace(/\D/g, '')`: the ASCII digits of `s`, in order. */
  function DigitsOnly(s: string): (r: string)
    ensures |r| <= |s|
    ensures forall k :: 0 <= k < |r| ==> IsDigitChar(r[k])
  {
    if s == [] then []
    else
      var rest := DigitsOnly(s[1..]);
      if IsDigitChar(s[0]) then [s[0]] + rest else rest
  }

  /** Every digit of `s` survives, as often as it occurs. */
  lemma {:induction false} DigitsOnlyKeepsDigits(s: string, c: char)
    requires IsDigitChar(c)
    ensures multiset(DigitsOnly(s))[c] == multiset(s)[c]
  {
    if s != [] {
      assert s == [s[0]] + s[1..];
      DigitsOnlyKeepsDigits(s[1..], c);
    }
  }

  /** Removing the non-digits distributes over concatenation, so order is kept. */
  lemma {:induction false} DigitsOnlyConcat(a: string, b: string)
    ensures DigitsOnly(a + b) == DigitsOnly(a) + DigitsOnly(b)
  {
    if a != [] {
      var ab := a + b;
      assert ab[0] == a[0];
      assert ab[1..] == a[1..] + b;
      DigitsOnlyConcat(a[1..], b);
      var head := if IsDigitChar(a[0]) then [a[0]] else [];
      assert DigitsOnly(ab) == head + DigitsOnly(ab[1..]);
      assert DigitsOnly(a) == head + DigitsOnly(a[1..]);
    } else {
      assert a + b == b;
    }
  }

  /** `validatePhone`: at least ten ASCII digits among the characters. */
  predicate ValidatePhone(phone: string)
    ensures ValidatePhone(phone) ==> |phone| >= MinPhoneDigits
  {
    |DigitsOnly(phone)| >= MinPhoneDigits
  }

  /** How many of the characters counted by `m` are ASCII digits. */
  function DigitTally(m: multiset<char>): nat {
    m['0'] + m['1'] + m['2'] + m['3'] + m['4'] + m['5'] + m['6'] + m['7'] + m['8'] + m['9']
  }

  /** A string of digits has as many digits as characters. */
  lemma {:induction false} AllDigitsTally(s: string)
    requires forall k :: 0 <= k < |s| ==> IsDigitChar(s[k])
    ensures DigitTally(multiset(s)) == |s|
  {
    if s != [] {
      assert s == [s[0]] + s[1..];
      AllDigitsTally(s[1..]);
      TallyUnion(multiset{s[0]}, multiset(s[1..]));
      TallyOneDigit(s[0]);
    }
  }

  lemma TallyUnion(a: multiset<char>, b: multiset<char>)
    ensures DigitTally(a + b) == DigitTally(a) + DigitTally(b)
  {
  }

  lemma TallyOneDigit(c: char)
    requires IsDigitChar(c)
    ensures DigitTally(multiset{c}) == 1
  {
    assert c == '0' || c == '1' || c == '2' || c == '3' || c == '4'
      || c == '5' || c == '6' || c == '7' || c == '8' || c == '9';
  }

  /** `validatePhone` holds exactly when the input has at least ten ASCII digits, counted with repetition. */
  lemma ValidatePhoneCountsDigits(phone: string)
    ensures ValidatePhone(phone) <==> DigitTally(multiset(phone)) >= MinPhoneDigits
  {
    var digits := DigitsOnly(phone);
    AllDigitsTally(digits);
    forall d | d in "0123456789" ensures multiset(digits)[d] == multiset(phone)[d] {
      DigitsOnlyKeepsDigits(phone, d);
    }
    assert "0123456789"[0] == '0' && "0123456789"[9] == '9';
    assert DigitTally(multiset(digits)) == DigitTally(multiset(phone));
  }

  /** Punctuation, spaces and letters anywhere in the number never change the verdict. */
  lemma PhoneIgnoresNonDigit(a: string, c: char, b: string)
    requires !IsDigitChar(c)
    ensures ValidatePhone(a + [c] + b) == ValidatePhone(a + b)
  {
    DigitsOnlyConcat(a + [c], b);
    DigitsOnlyConcat(a, [c]);
    DigitsOnlyConcat(a, b);
  }

  /** Appending characters never makes a valid number invalid. */
  lemma PhoneExtend(a: string, b: string)
    requires ValidatePhone(a)
    ensures ValidatePhone(a + b)
  {
    DigitsOnlyConcat(a, b);
  }

  /** White space around a number does not change its digits, so trimming is harmless. */
  lemma DigitsOnlyAroundSpace(s: string)
    ensures DigitsOnly(Trim(s)) == DigitsOnly(s)
  {
    DigitsOnlyTrimStart(s);
    DigitsOnlyTrimEnd(TrimStart(s));
  }

  lemma {:induction false} DigitsOnlyTrimStart(s: string)
    ensures DigitsOnly(TrimStart(s)) == DigitsOnly(s)
  {
    if s != [] && IsJsSpace(s[0]) {
      SpaceIsNoDigit(s[0]);
      assert TrimStart(s) == TrimStart(s[1..]);
      assert DigitsOnly(s) == DigitsOnly(s[1..]);
      DigitsOnlyTrimStart(s[1..]);
    }
  }

  lemma {:induction false} DigitsOnlyTrimEnd(s: string)
    ensures DigitsOnly(TrimEnd(s)) == DigitsOnly(s)
  {
    if s != [] && IsJsSpace(s[|s| - 1]) {
      var init := s[..|s| - 1];
      DigitsOnlyTrimEnd(init);
      assert s == init + [s[|s| - 1]];
      DigitsOnlyConcat(init, [s[|s| - 1]]);
      SpaceIsNoDigit(s[|s| - 1]);
      assert DigitsOnly([s[|s| - 1]]) == [];
    }
  }

  lemma SpaceIsNoDigit(c: char)
    requires IsJsSpace(c)
    ensures !IsDigitChar(c)
  {
  }

  /** `(555) 123-4567` has ten digits and passes. */
  lemma PhoneExampleValid()
    ensures |DigitsOnly("(555) 123-4567")| == 10 && ValidatePhone("(555) 123-4567")
  {
    assert "(555) " + "123-4567" == "(555) 123-4567";
    DigitsOnlyConcat("(555) ", "123-4567");
  }

  /** `555-12` has five digits and fails. */
  lemma PhoneExampleInvalid()
    ensures |DigitsOnly("555-12")| == 5 && !ValidatePhone("555-12")
  {
  }

  /** A member of the class `[^\s@]`. */
  predicate PlainChar(c: char) {
    !IsJsSpace(c) && c != '@'
  }

  /** A string over `[^\s@]`. */
  predicate Plain(s: string) {
    forall k :: 0 <= k < |s| ==> PlainChar(s[k])
  }

  /**
   * The language of `^[^\s@]+@[^\s@]+\.[^\s@]+$`: some `@` at `i` and some
   * `.` at `j` cut the string into three non-empty runs of `[^\s@]`.
   */
  ghost predicate MatchesEmailPattern(s: string) {
    exists i, j :: EmailCut(s, i, j)
  }

  /** The cut of `s` at an `@` in position `i` and a `.` in position `j` that the pattern asks for. */
  ghost predicate EmailCut(s: string, i: int, j: int) {
    && 0 < i && i + 1 < j && j + 1 < |s| && s[i] == '@' && s[j] == '.'
    && Plain(s[..i]) && Plain(s[i + 1..j]) && Plain(s[j + 1..])
  }

  /** A `.` strictly inside `domain`, neither first nor last. */
  predicate HasInnerDot(domain: string) {
    |domain| >= 3 && '.' in domain[1..|domain| - 1]
  }

  /** The address test on a non-empty string: one `@`, a plain local part and a dotted plain domain. */
  predicate WellFormedAddress(email: string) {
    var at := IndexOf(email, '@');
    0 < at && Plain(email[..at]) && Plain(email[at + 1..]) && HasInnerDot(email[at + 1..])
  }

  /** `validateEmail`: an empty address is accepted, since the field is optional. */
  predicate ValidateEmail(email: string) {
    email == [] || WellFormedAddress(email)
  }

  /** `validateEmail` accepts exactly the empty string and the strings the pattern matches. */
  lemma ValidateEmailMatchesPattern(email: string)
    ensures ValidateEmail(email) <==> email == [] || MatchesEmailPattern(email)
  {
    if email != [] {
      if WellFormedAddress(email) {
        var at := IndexOf(email, '@');
        var j := CheckGivesMatch(email, at);
      }
      if MatchesEmailPattern(email) {
        var i, j :| EmailCut(email, i, j);
        MatchGivesCheck(email, i, j);
      }
    }
  }

  /**
   * Read the other way: an address split at an `@` is valid exactly when
   * the part before it is a non-empty plain run and the part after it is a
   * plain run with a dot strictly inside.
   */
  lemma ValidateEmailSplit(local: string, domain: string)
    ensures ValidateEmail(local + "@" + domain) <==>
      local != [] && Plain(local) && Plain(domain) && HasInnerDot(domain)
  {
    var email := local + "@" + domain;
    var n := |local|;
    assert email[n] == '@';
    assert email[..n] == local && email[n + 1..] == domain;
    if Plain(local) {
      PlainHasNoAt(local);
      IndexOfFirst(email, '@', n);
    }
  }

  /** `[^\s@]+` runs glue together around a plain character. */
  lemma PlainAround(a: string, c: char, b: string)
    requires Plain(a) && PlainChar(c) && Plain(b)
    ensures Plain(a + [c] + b)
  {
    var s := a + [c] + b;
    forall k | 0 <= k < |s| ensures PlainChar(s[k]) {
      if k < |a| {
        assert s[k] == a[k];
      } else if k > |a| {
        assert s[k] == b[k - |a| - 1];
      }
    }
  }

  lemma PlainSlice(s: string, i: nat, j: nat)
    requires Plain(s) && i <= j <= |s|
    ensures Plain(s[i..j])
  {
    forall k | 0 <= k < j - i ensures PlainChar(s[i..j][k]) {
      assert s[i..j][k] == s[i + k];
    }
  }

  lemma CheckGivesMatch(email: string, at: int) returns (j: int)
    requires 0 < at < |email| && email[at] == '@'
    requires Plain(email[..at]) && Plain(email[at + 1..]) && HasInnerDot(email[at + 1..])
    ensures EmailCut(email, at, j)
  {
    var domain := email[at + 1..];
    var mid := domain[1..|domain| - 1];
    var k := IndexOf(mid, '.');
    j := at + 2 + k;
    assert email[j] == mid[k] == '.';
    assert email[at + 1..j] == domain[..k + 1];
    assert email[j + 1..] == domain[k + 2..];
    PlainSlice(domain, 0, k + 1);
    PlainSlice(domain, k + 2, |domain|);
  }

  lemma MatchGivesCheck(email: string, i: int, j: int)
    requires EmailCut(email, i, j)
    ensures IndexOf(email, '@') == i
    ensures Plain(email[i + 1..]) && HasInnerDot(email[i + 1..])
  {
    PlainHasNoAt(email[..i]);
    IndexOfFirst(email, '@', i);
    var domain := email[i + 1..];
    assert domain == email[i + 1..j] + ['.'] + email[j + 1..];
    PlainAround(email[i + 1..j], '.', email[j + 1..]);
    assert domain[j - i - 1] == email[j];
    assert domain[1..|domain| - 1][j - i - 2] == '.';
  }

  lemma PlainHasNoAt(s: string)
    requires Plain(s)
    ensures '@' !in s
  {
  }

  lemma NoAtInPlain(s: string)
    requires Plain(s)
    ensures multiset(s)['@'] == 0
  {
  }

  /** A valid non-empty address holds no white space and exactly one `@`. */
  lemma ValidEmailShape(email: string)
    requires email != [] && ValidateEmail(email)
    ensures forall k :: 0 <= k < |email| ==> !IsJsSpace(email[k])
    ensures multiset(email)['@'] == 1
  {
    var at := IndexOf(email, '@');
    var local, domain := email[..at], email[at + 1..];
    assert email == local + ['@'] + domain;
    forall k | 0 <= k < |email| ensures !IsJsSpace(email[k]) {
      if k < at {
        assert email[k] == local[k];
      } else if k > at {
        assert email[k] == domain[k - at - 1];
      }
    }
    NoAtInPlain(local);
    NoAtInPlain(domain);
    assert multiset(email) == multiset(local) + multiset{'@'} + multiset(domain);
  }

  /** `a@b` has no dot in its domain and is refused. */
  lemma EmailExampleNoDot()
    ensures !ValidateEmail("a@b")
  {
    assert IndexOf("a@b", '@') == 1;
  }

  /** `a@b.com` is accepted. */
  lemma EmailExampleValid()
    ensures ValidateEmail("a@b.com")
  {
    var e := "a@b.com";
    assert IndexOf(e, '@') == 1;
    var local, domain := e[..1], e[2..];
    assert local == "a" && domain == "b.com";
    assert Plain(local);
    assert Plain(domain);
    assert domain[1..4][0] == '.';
  }

  /**
   * The blur handlers tint a field red when its current, untrimmed value is
   * non-empty and fails its validator.
   */
  predicate PhoneFieldFlagged(value: string) {
    value != [] && !ValidatePhone(value)
  }

  predicate EmailFieldFlagged(value: string) {
    value != [] && !ValidateEmail(value)
  }

  /** The blur check on the raw phone field agrees with the submit check on the trimmed one. */
  lemma PhoneBlurAgreesWithSubmit(value: string)
    requires Trim(value) != []
    ensures PhoneFieldFlagged(value) <==> !ValidatePhone(Trim(value))
  {
    DigitsOnlyAroundSpace(value);
  }

  /** Whatever submit refuses as an e-mail address, the blur check on the raw field also turns red. */
  lemma EmailBlurAtLeastAsStrict(value: string)
    requires Trim(value) != [] && !ValidateEmail(Trim(value))
    ensures EmailFieldFlagged(value)
  {
    if ValidateEmail(value) {
      ValidEmailShape(value);
    }
  }

  /** The blur check on the raw e-mail field is stricter: surrounding spaces turn it red. */
  lemma EmailBlurStricterThanSubmit()
    ensures EmailFieldFlagged(" a@b.com")
    ensures !EmailFieldFlagged(Trim(" a@b.com"))
  {
    var raw := " a@b.com";
    var t := raw[1..];
    assert t == "a@b.com";
    assert IsJsSpace(raw[0]) && !IsJsSpace(t[0]);
    assert TrimStart(t) == t;
    assert TrimStart(raw) == t;
    assert !IsJsSpace(t[|t| - 1]);
    assert TrimEnd(t) == t;
    EmailExampleValid();
    if ValidateEmail(raw) {
      ValidEmailShape(raw);
    }
  }
}
