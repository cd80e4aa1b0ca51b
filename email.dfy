/**
  The Email value object: Email.ShouldCreate trims and lower-cases its input,
  checks it against the address grammar and keeps the normalised address
  together with its Base64 hash.
 */
module Emails {
  import opened Wrappers
  import opened Strings
  import opened StringExtensions

  const InvalidEmailMessage: string := "E-mail inválido"

  /** InvalidEmailException, always raised with InvalidEmailMessage. */
  datatype InvalidEmailException = InvalidEmailException(message: string)

  /** Characters allowed in a dot-separated atom of the local part. */
  predicate IsAtomChar(c: char) {
    ('a' <= c <= 'z') || ('0' <= c <= '9') || c == '_' || c == '%' || c == '+' || c == '-'
  }

  /** Characters allowed in a domain label. */
  predicate IsLabelChar(c: char) {
    ('a' <= c <= 'z') || ('0' <= c <= '9') || c == '-'
  }

  /** Every character a valid address can contain. */
  predicate IsAddressChar(c: char) {
    IsAtomChar(c) || c == '.' || c == '@'
  }

  predicate IsAtom(a: string) {
    a != [] && forall i :: 0 <= i < |a| ==> IsAtomChar(a[i])
  }

  predicate IsLabel(l: string) {
    l != [] && forall i :: 0 <= i < |l| ==> IsLabelChar(l[i])
  }

  /** Local part: non-empty atoms separated by single dots. */
  predicate IsLocalPart(s: string) {
    var atoms := Split(s, '.');
    forall k :: 0 <= k < |atoms| ==> IsAtom(atoms[k])
  }

  /** Domain: at least two non-empty labels separated by single dots, so no
      leading, trailing or doubled dot and a top-level label is present. */
  predicate IsDomain(s: string) {
    var labels := Split(s, '.');
    |labels| >= 2 && forall k :: 0 <= k < |labels| ==> IsLabel(labels[k])
  }

  /** The address grammar: exactly one '@' between a local part and a domain.
      So an address holds an '@' and a dot, and starts and ends with
      neither a dot nor an '@'. */
  predicate IsValidAddress(s: string): (b: bool)
    ensures b ==> '@' in s && '.' in s
    ensures b ==> s != [] && s[0] != '.' && s[0] != '@' && s[|s| - 1] != '.' && s[|s| - 1] != '@'
  {
    var halves := Split(s, '@');
    if |halves| == 2 && IsLocalPart(halves[0]) && IsDomain(halves[1]) then
      AddressEnds(s, halves[0], halves[1]);
      true
    else
      false
  }

  /** The ends of a local part joined to a domain by '@'. */
  lemma AddressEnds(s: string, local: string, domain: string)
    requires s == local + ['@'] + domain
    requires IsLocalPart(local) && IsDomain(domain)
    requires '@' !in local && '@' !in domain
    ensures '@' in s && '.' in s
    ensures s != [] && s[0] != '.' && s[0] != '@' && s[|s| - 1] != '.' && s[|s| - 1] != '@'
  {
    LocalPartShape(local);
    DomainShape(domain);
    assert s[|local|] == '@';
    var j :| 0 <= j < |domain| && domain[j] == '.';
    assert s[|local| + 1 + j] == '.';
    assert local[0] in local && domain[|domain| - 1] in domain;
  }

  /** The normalisation applied before validation: Trim, then ToLower. The
      result is no longer than the input, empty exactly for a blank input,
      has no white space at either end and no upper-case ASCII letter. */
  function Normalize(raw: string): (n: string)
    ensures |n| <= |raw|
    ensures n == [] <==> AllWhiteSpace(raw)
    ensures n != [] ==> !IsWhiteSpace(n[0]) && !IsWhiteSpace(n[|n| - 1])
    ensures forall i :: 0 <= i < |n| ==> !IsAsciiUpper(n[i])
  {
    var t := Trim(raw);
    TrimBlank(raw);
    if t != [] then
      LowerCharWhiteSpace(t[0]);
      LowerCharWhiteSpace(t[|t| - 1]);
      ToLower(t)
    else
      ToLower(t)
  }

  /** An Email value: the normalised address and its hash. */
  datatype Email = Email(address: string, hash: string) {
    /** The explicit (string) conversion and ToString() both give the address. */
    function ToString(): (s: string)
      ensures s == address
    {
      address
    }
  }

  /** Labels are atoms, so a grammatical domain is also a grammatical local
      part. */
  lemma DomainIsLocalPart(d: string)
    requires IsDomain(d)
    ensures IsLocalPart(d)
  {
    var labels := Split(d, '.');
    forall k | 0 <= k < |labels| ensures IsAtom(labels[k]) {
      assert IsLabel(labels[k]);
    }
  }

  /** Every character of a grammatical local part is an address character. */
  lemma {:induction false} PartChars(part: string)
    requires IsLocalPart(part)
    ensures forall i :: 0 <= i < |part| ==> IsAddressChar(part[i])
  {
    var pieces := Split(part, '.');
    forall k, i | 0 <= k < |pieces| && 0 <= i < |pieces[k]| ensures IsAddressChar(pieces[k][i]) {
      assert IsAtom(pieces[k]);
    }
    JoinChars(pieces, '.', IsAddressChar);
  }

  /** Every character of a grammatical address is a lower-case ASCII letter,
      a digit, one of _%+- or a separator; in particular it is ASCII. */
  lemma {:induction false} ValidAddressChars(s: string)
    requires IsValidAddress(s)
    ensures s != []
    ensures forall i :: 0 <= i < |s| ==> IsAddressChar(s[i])
  {
    var halves := Split(s, '@');
    assert |s| == |halves[0]| + 1 + |Join(halves[1..], '@')|;
    PartChars(halves[0]);
    DomainIsLocalPart(halves[1]);
    PartChars(halves[1]);
    forall k, i | 0 <= k < |halves| && 0 <= i < |halves[k]| ensures IsAddressChar(halves[k][i]) {
      if k == 1 {
        assert IsAddressChar(halves[1][i]);
      }
    }
    JoinChars(halves, '@', IsAddressChar);
  }

  /** A grammatical address is ASCII and survives normalisation unchanged. */
  lemma ValidAddressIsNormal(s: string)
    requires IsValidAddress(s)
    ensures IsAscii(s)
    ensures Normalize(s) == s
  {
    ValidAddressChars(s);
    AddressCharsAreNormal(s);
  }

  /** A non-empty string of address characters is ASCII, has nothing to
      trim and nothing to lower-case. */
  lemma AddressCharsAreNormal(s: string)
    requires s != [] && forall i :: 0 <= i < |s| ==> IsAddressChar(s[i])
    ensures IsAscii(s)
    ensures Normalize(s) == s
  {
    assert !IsWhiteSpace(s[0]) && !IsWhiteSpace(s[|s| - 1]);
    TrimUntrimmed(s);
    ToLowerOfLower(s);
  }

  /** Email.ShouldCreate: succeeds exactly when the normalised input is a
      grammatical address, keeps that address and its Base64 as the hash,
      and otherwise fails with the fixed message. */
  function ShouldCreate(raw: string): (r: Result<Email, InvalidEmailException>)
    ensures r.Success? <==> IsValidAddress(Normalize(raw))
    ensures r.Success? ==> r.value.address == Normalize(raw) && IsAscii(r.value.address)
    ensures r.Success? ==> ToBase64(Some(r.value.address)) == Success(r.value.hash)
    ensures r.Failure? ==> r.error == InvalidEmailException(InvalidEmailMessage)
  {
    var address := Normalize(raw);
    if IsValidAddress(address) then
      ValidAddressIsNormal(address);
      Success(Email(address, ToBase64(Some(address)).value))
    else
      Failure(InvalidEmailException(InvalidEmailMessage))
  }

  /** Lower-casing never turns a white-space character into a non-white-space
      one or back. */
  lemma LowerCharWhiteSpace(c: char)
    ensures IsWhiteSpace(LowerChar(c)) <==> IsWhiteSpace(c)
  {
  }

  /** Normalising twice is normalising once. */
  lemma NormalizeIdempotent(raw: string)
    ensures Normalize(Normalize(raw)) == Normalize(raw)
  {
    var t := Trim(raw);
    var n := ToLower(t);
    if n != [] {
      LowerCharWhiteSpace(t[0]);
      LowerCharWhiteSpace(t[|t| - 1]);
    }
    TrimUntrimmed(n);
    ToLowerOfLower(n);
  }

  /** Creating an email from the address of a created email gives the same
      email back: the address is a fixed point of ShouldCreate. */
  lemma CreateFromAddress(raw: string)
    requires ShouldCreate(raw).Success?
    ensures ShouldCreate(ShouldCreate(raw).value.address) == ShouldCreate(raw)
  {
    NormalizeIdempotent(raw);
  }

  /** A grammatical address is accepted and kept exactly as given. */
  lemma CreateValid(s: string)
    requires IsValidAddress(s)
    ensures ShouldCreate(s).Success? && ShouldCreate(s).value.address == s
  {
    ValidAddressIsNormal(s);
  }

  /** The empty, white-space-only (and so the null-mapped-to-empty) inputs
      are rejected with the fixed message. */
  lemma BlankRejected(raw: string)
    requires AllWhiteSpace(raw)
    ensures ShouldCreate(raw) == Failure(InvalidEmailException(InvalidEmailMessage))
  {
    assert Trim(raw) == [];
    assert Split([], '@') == [[]];
  }

  /** Equal normalised addresses give equal hashes, and different addresses
      give different hashes. */
  lemma HashesDistinguishAddresses(raw1: string, raw2: string)
    requires ShouldCreate(raw1).Success? && ShouldCreate(raw2).Success?
    ensures ShouldCreate(raw1).value.hash == ShouldCreate(raw2).value.hash
        <==> ShouldCreate(raw1).value.address == ShouldCreate(raw2).value.address
  {
    var e1, e2 := ShouldCreate(raw1).value, ShouldCreate(raw2).value;
    if e1.hash == e2.hash {
      ToBase64Injective(e1.address, e2.address);
    }
  }

  /** A grammatical domain has a dot, does not start or end with one and
      never holds two dots in a row. */
  lemma DomainShape(d: string)
    ensures IsDomain(d) ==> d != [] && d[0] != '.' && d[|d| - 1] != '.' && '.' in d
    ensures IsDomain(d) ==> forall i :: 0 <= i < |d| - 1 ==> d[i] != '.' || d[i + 1] != '.'
  {
    if IsDomain(d) {
      var labels := Split(d, '.');
      JoinOfNonEmpty(labels, '.');
      assert d == labels[0] + ['.'] + Join(labels[1..], '.');
      assert d[|labels[0]|] == '.';
    }
  }

  /** A grammatical local part is non-empty, does not start or end with a dot
      and never holds two dots in a row. */
  lemma LocalPartShape(l: string)
    requires IsLocalPart(l)
    ensures l != [] && l[0] != '.' && l[|l| - 1] != '.'
    ensures forall i :: 0 <= i < |l| - 1 ==> l[i] != '.' || l[i + 1] != '.'
  {
    JoinOfNonEmpty(Split(l, '.'), '.');
  }

  /** A grammatical address holds exactly one '@', with a non-empty local
      part before it and a domain after it. */
  lemma ValidAddressShape(s: string)
    ensures IsValidAddress(s) ==>
      exists i :: 0 < i < |s| && IsLocalPart(s[..i]) && IsDomain(s[i + 1..])
                  && forall j :: 0 <= j < |s| ==> (s[j] == '@' <==> j == i)
  {
    if IsValidAddress(s) {
      var halves := Split(s, '@');
      var i := |halves[0]|;
      assert s == halves[0] + ['@'] + halves[1];
      assert s[..i] == halves[0] && s[i + 1..] == halves[1];
      LocalPartShape(halves[0]);
      forall j | 0 <= j < |s| ensures s[j] == '@' <==> j == i {
        if j < i {
          assert s[j] == halves[0][j] && halves[0][j] in halves[0];
        } else if j > i {
          assert s[j] == halves[1][j - i - 1] && halves[1][j - i - 1] in halves[1];
        }
      }
    }
  }

  /** Atoms and labels contain neither separator. */
  lemma AtomHasNoSeparator(a: string)
    requires IsAtom(a) || IsLabel(a)
    ensures '.' !in a && '@' !in a
  {
    forall i | 0 <= i < |a| ensures a[i] != '.' && a[i] != '@' {
      assert IsAtomChar(a[i]) || IsLabelChar(a[i]);
    }
  }

  /** Two labels joined by a dot form a grammatical domain without an '@'. */
  lemma {:induction false} TwoLabelDomain(label1: string, label2: string)
    requires IsLabel(label1) && IsLabel(label2)
    ensures IsDomain(label1 + "." + label2) && '@' !in label1 + "." + label2
  {
    var domain := label1 + "." + label2;
    AtomHasNoSeparator(label1);
    AtomHasNoSeparator(label2);
    assert domain == Join([label1, label2], '.');
    SplitJoin([label1, label2], '.');
    forall i | 0 <= i < |domain| ensures domain[i] != '@' {
      if i < |label1| {
        assert domain[i] == label1[i];
      } else if i > |label1| {
        assert domain[i] == label2[i - |label1| - 1];
      }
    }
  }

  /** An address with a single-atom local part and a two-label domain is
      grammatical. */
  lemma {:induction false} TwoLabelAddressValid(local: string, label1: string, label2: string)
    requires IsAtom(local) && IsLabel(label1) && IsLabel(label2)
    ensures IsValidAddress(local + "@" + label1 + "." + label2)
  {
    var domain := label1 + "." + label2;
    AtomHasNoSeparator(local);
    TwoLabelDomain(label1, label2);
    assert local + "@" + label1 + "." + label2 == Join([local, domain], '@');
    SplitJoin([local, domain], '@');
    assert local == Join([local], '.');
    SplitJoin([local], '.');
  }

  /** A normalisation can be checked character by character. */
  lemma {:induction false} NormalizesTo(raw: string, n: string)
    requires raw != [] && !IsWhiteSpace(raw[0]) && !IsWhiteSpace(raw[|raw| - 1])
    requires |n| == |raw| && forall i :: 0 <= i < |raw| ==> n[i] == LowerChar(raw[i])
    ensures Trim(raw) == raw && ToLower(raw) == n && Normalize(raw) == n
  {
    TrimUntrimmed(raw);
  }

  // The inputs of the test suite. Each lemma takes its literals as
  // parameters pinned by a requires and proves one step, so that no proof
  // unfolds a long literal more than once and each stays small.

  /** "emailtests@testes.com" is grammatical. */
  lemma ExpectedAddressValid(s: string)
    requires s == "emailtests@testes.com"
    ensures IsValidAddress(s)
  {
    assert s == "emailtests" + "@" + "testes" + "." + "com";
    TwoLabelAddressValid("emailtests", "testes", "com");
  }

  /** "EmailTests@Testes.Com" normalises to "emailtests@testes.com". */
  lemma NormalizeMixedCase(raw: string, n: string)
    requires raw == "EmailTests@Testes.Com" && n == "emailtests@testes.com"
    ensures Normalize(raw) == n
  {
    NormalizesTo(raw, n);
  }

  /** ShouldCreate keeps a normalisation that is grammatical. */
  lemma CreatesNormalized(raw: string, address: string)
    requires Normalize(raw) == address && IsValidAddress(address)
    ensures ShouldCreate(raw).Success? && ShouldCreate(raw).value.address == address
  {
  }

  /** "EmailTests@Testes.Com" is lower-cased to "emailtests@testes.com". */
  lemma LowerCasedExample(raw: string, expected: string)
    requires raw == "EmailTests@Testes.Com" && expected == "emailtests@testes.com"
    ensures ShouldCreate(raw).Success? && ShouldCreate(raw).value.address == expected
  {
    NormalizeMixedCase(raw, expected);
    ExpectedAddressValid(expected);
    CreatesNormalized(raw, expected);
  }

  /** ShouldCreate rejects an input whose normalisation is not grammatical. */
  lemma RejectsNormalized(raw: string, address: string)
    requires Normalize(raw) == address && !IsValidAddress(address)
    ensures ShouldCreate(raw) == Failure(InvalidEmailException(InvalidEmailMessage))
  {
  }

  /** Two '@' in a row make an address ungrammatical. */
  lemma DoubleAtInvalid(s: string, i: int)
    requires 0 <= i < |s| - 1 && s[i] == '@' && s[i + 1] == '@'
    ensures !IsValidAddress(s)
  {
    ValidAddressShape(s);
  }

  /** An address whose part after an '@' is not a domain is ungrammatical. */
  lemma BadDomainInvalid(s: string, i: int)
    requires 0 <= i < |s| && s[i] == '@' && !IsDomain(s[i + 1..])
    ensures !IsValidAddress(s)
  {
    ValidAddressShape(s);
  }

  /** " emailTests@testes.com " trims to "emailTests@testes.com". */
  lemma TrimPaddedExample(raw: string, inner: string)
    requires raw == " emailTests@testes.com " && inner == "emailTests@testes.com"
    ensures Trim(raw) == inner
  {
    assert raw == [' '] + inner + [' '];
    TrimPadded(inner);
  }

  /** "emailTests@testes.com" lower-cases to "emailtests@testes.com". */
  lemma LowerExample(inner: string, expected: string)
    requires inner == "emailTests@testes.com" && expected == "emailtests@testes.com"
    ensures ToLower(inner) == expected
  {
    NormalizesTo(inner, expected);
  }

  /** " emailTests@testes.com " is trimmed and lower-cased to
      "emailtests@testes.com". */
  lemma TrimmedExample(raw: string, inner: string, expected: string)
    requires raw == " emailTests@testes.com " && inner == "emailTests@testes.com"
    requires expected == "emailtests@testes.com"
    ensures ShouldCreate(raw).Success? && ShouldCreate(raw).value.address == expected
  {
    TrimPaddedExample(raw, inner);
    LowerExample(inner, expected);
    ExpectedAddressValid(expected);
    CreatesNormalized(raw, expected);
  }

  /** "emailTests@@testes.com" is rejected: it holds two '@'. */
  lemma DoubleAtRejected(raw: string, n: string)
    requires raw == "emailTests@@testes.com" && n == "emailtests@@testes.com"
    ensures ShouldCreate(raw) == Failure(InvalidEmailException(InvalidEmailMessage))
  {
    NormalizesTo(raw, n);
    DoubleAtInvalid(n, 10);
    RejectsNormalized(raw, n);
  }

  /** "emailTests@testes..com" is rejected: its domain holds two dots in a row. */
  lemma DoubleDotRejected(raw: string, n: string)
    requires raw == "emailTests@testes..com" && n == "emailtests@testes..com"
    ensures ShouldCreate(raw) == Failure(InvalidEmailException(InvalidEmailMessage))
  {
    NormalizesTo(raw, n);
    DoubleDotInvalid(n);
    RejectsNormalized(raw, n);
  }

  /** "testes..com" is not a domain. */
  lemma DoubleDotDomain(d: string)
    requires d == "testes..com"
    ensures !IsDomain(d)
  {
    DomainShape(d);
    assert d[6] == '.' && d[7] == '.';
  }

  /** "emailtests@testes..com" is not grammatical. */
  lemma DoubleDotInvalid(n: string)
    requires n == "emailtests@testes..com"
    ensures !IsValidAddress(n)
  {
    DoubleDotDomain(n[11..]);
    BadDomainInvalid(n, 10);
  }

  /** "emailTests@.com" is rejected: its domain starts with a dot. */
  lemma LeadingDotRejected(raw: string, n: string)
    requires raw == "emailTests@.com" && n == "emailtests@.com"
    ensures ShouldCreate(raw) == Failure(InvalidEmailException(InvalidEmailMessage))
  {
    NormalizesTo(raw, n);
    DomainShape(n[11..]);
    assert n[11..][0] == '.';
    BadDomainInvalid(n, 10);
    RejectsNormalized(raw, n);
  }

  /** "emailTests@com" is rejected: its domain has no dot. */
  lemma SingleLabelRejected(raw: string, n: string)
    requires raw == "emailTests@com" && n == "emailtests@com"
    ensures ShouldCreate(raw) == Failure(InvalidEmailException(InvalidEmailMessage))
  {
    NormalizesTo(raw, n);
    DomainShape(n[11..]);
    assert n[11..] == "com";
    BadDomainInvalid(n, 10);
    RejectsNormalized(raw, n);
  }

  /** "emailTests@testes.com" is accepted as its lower-cased form, which is
      also what its string conversion returns. */
  lemma MixedCaseAccepted(raw: string, expected: string)
    requires raw == "emailTests@testes.com" && expected == "emailtests@testes.com"
    ensures ShouldCreate(raw).Success?
    ensures ShouldCreate(raw).value.address == ToLower(raw)
    ensures ShouldCreate(raw).value.ToString() == ToLower(raw)
  {
    NormalizesTo(raw, expected);
    ExpectedAddressValid(expected);
    CreatesNormalized(raw, expected);
  }

  /** "testemail@testes.com" is grammatical. */
  lemma UpperCaseTargetValid(n: string)
    requires n == "testemail@testes.com"
    ensures IsValidAddress(n)
  {
    assert n == "testemail" + "@" + "testes" + "." + "com";
    TwoLabelAddressValid("testemail", "testes", "com");
  }

  /** "TestEmail@TESTES.COM" is accepted as its lower-cased form. */
  lemma UpperCaseAccepted(raw: string, expected: string)
    requires raw == "TestEmail@TESTES.COM" && expected == "testemail@testes.com"
    ensures ShouldCreate(raw).Success?
    ensures ShouldCreate(raw).value.address == ToLower(raw)
  {
    NormalizesTo(raw, expected);
    UpperCaseTargetValid(expected);
    CreatesNormalized(raw, expected);
  }

  /** "test@test.com" is accepted and kept as it is. */
  lemma NormalizedAccepted(s: string)
    requires s == "test@test.com"
    ensures ShouldCreate(s).Success? && ShouldCreate(s).value.address == s
  {
    assert s == "test" + "@" + "test" + "." + "com";
    TwoLabelAddressValid("test", "test", "com");
    CreateValid(s);
  }

  /** An atom followed by "@testes.com" is accepted and kept as it is. */
  lemma TestesAddressAccepted(local: string, a: string)
    requires IsAtom(local) && a == local + "@testes.com"
    ensures ShouldCreate(a).Success? && ShouldCreate(a).value.address == a
  {
    assert a == local + "@" + "testes" + "." + "com";
    TwoLabelAddressValid(local, "testes", "com");
    CreateValid(a);
  }

  /** "emailN@testes.com" for a digit N, such as "email1@testes.com" and
      "email2@testes.com", is accepted as it is. */
  lemma NumberedAddressAccepted(d: char)
    requires '0' <= d <= '9'
    ensures ShouldCreate("email" + [d] + "@testes.com").Success?
    ensures ShouldCreate("email" + [d] + "@testes.com").value.address
         == "email" + [d] + "@testes.com"
  {
    var local := "email" + [d];
    assert IsAtom(local);
    TestesAddressAccepted(local, local + "@testes.com");
  }

  /** Two numbered addresses with different digits are both accepted and
      get different hashes. */
  lemma DistinctNumberedHashes(d1: char, d2: char)
    requires '0' <= d1 <= '9' && '0' <= d2 <= '9' && d1 != d2
    ensures ShouldCreate("email" + [d1] + "@testes.com").Success?
    ensures ShouldCreate("email" + [d2] + "@testes.com").Success?
    ensures ShouldCreate("email" + [d1] + "@testes.com").value.hash
         != ShouldCreate("email" + [d2] + "@testes.com").value.hash
  {
    NumberedAddressAccepted(d1);
    NumberedAddressAccepted(d2);
    NumberedAddressesDiffer(d1, d2);
    HashesDistinguishAddresses("email" + [d1] + "@testes.com", "email" + [d2] + "@testes.com");
  }

  /** Numbered addresses with different digits differ at the digit. */
  lemma NumberedAddressesDiffer(d1: char, d2: char)
    requires d1 != d2
    ensures "email" + [d1] + "@testes.com" != "email" + [d2] + "@testes.com"
  {
    var a1, a2 := "email" + [d1] + "@testes.com", "email" + [d2] + "@testes.com";
    assert a1[5] == d1 && a2[5] == d2;
  }
}
