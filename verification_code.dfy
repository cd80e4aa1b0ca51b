/**
  The VerificationCode value object: a six-digit code that expires at a set
  instant, starts inactive, and can be verified at most once.
 */
module VerificationCodes {
  import opened Wrappers
  import opened Clock

  const CodeLength: nat := 6

  /** Why ShouldVerify threw; the C# exception type is the same for all. */
  datatype Rejection = NullOrEmptyCode | AlreadyVerified | NotActive | CodeMismatch | CodeExpired

  datatype InvalidVerificationCodeException = InvalidVerificationCodeException(reason: Rejection)

  predicate IsDigits(s: string) {
    forall i :: 0 <= i < |s| ==> '0' <= s[i] <= '9'
  }

  /** The decimal digit a random draw stands for. */
  function DigitOf(d: nat): (c: char)
    ensures '0' <= c <= '9'
    ensures c as int - '0' as int == d % 10
  {
    ('0' as int + d % 10) as char
  }

  /** The code the random draws produce: one digit per draw. */
  function CodeFromDraws(draws: seq<nat>): (code: string)
    requires |draws| >= CodeLength
    ensures |code| == CodeLength && IsDigits(code)
    ensures forall i :: 0 <= i < CodeLength ==> code[i] as int - '0' as int == draws[i] % 10
  {
    seq(CodeLength, i requires 0 <= i < CodeLength => DigitOf(draws[i]))
  }

  class VerificationCode {
    const code: string
    const expiresAtUtc: Instant
    var verifiedAtUtc: Option<Instant>
    var isActive: bool
    /** How many verifications have succeeded on this code. */
    ghost var verifications: nat

    /** The code is six digits, it has been verified at most once, it is
        verified exactly when VerifiedAtUtc is set, and a verified code is
        inactive. */
    ghost predicate Valid()
      reads this
    {
      && |code| == CodeLength && IsDigits(code)
      && verifications <= 1
      && (verifications == 1 <==> verifiedAtUtc.Some?)
      && (verifiedAtUtc.Some? ==> !isActive)
    }

    /** VerificationCode.ShouldCreate: a code from the random draws, valid
        for the given lifetime from now, not verified and not active. */
    constructor ShouldCreate(now: Instant, lifetime: int, draws: seq<nat>)
      requires lifetime > 0 && |draws| >= CodeLength
      ensures Valid()
      ensures code == CodeFromDraws(draws)
      ensures expiresAtUtc == now + lifetime
      ensures verifiedAtUtc == None && !isActive && verifications == 0
    {
      code := CodeFromDraws(draws);
      expiresAtUtc := now + lifetime;
      verifiedAtUtc := None;
      isActive := false;
      verifications := 0;
    }

    /** Activation, the step that makes a code verifiable once it has been
        sent. It is not part of the tested interface; it never reactivates a
        code that has already been verified. */
    method Activate()
      requires Valid()
      modifies this
      ensures Valid()
      ensures isActive == old(verifiedAtUtc).None?
      ensures verifiedAtUtc == old(verifiedAtUtc) && verifications == old(verifications)
    {
      if verifiedAtUtc.None? {
        isActive := true;
      }
    }

    /** The outcome ShouldVerify reports for a candidate at instant now. */
    function Check(candidate: Option<string>, now: Instant): (r: Outcome<InvalidVerificationCodeException>)
      reads this
    {
      if candidate.None? || candidate.value == [] then Fail(InvalidVerificationCodeException(NullOrEmptyCode))
      else if verifiedAtUtc.Some? then Fail(InvalidVerificationCodeException(AlreadyVerified))
      else if !isActive then Fail(InvalidVerificationCodeException(NotActive))
      else if candidate.value != code then Fail(InvalidVerificationCodeException(CodeMismatch))
      else if now >= expiresAtUtc then Fail(InvalidVerificationCodeException(CodeExpired))
      else Pass
    }

    /** VerificationCode.ShouldVerify: accepts exactly the code itself, on an
        active, unverified code before it expires; success records the
        instant and deactivates the code, failure changes nothing. */
    method ShouldVerify(candidate: Option<string>, now: Instant)
      returns (r: Outcome<InvalidVerificationCodeException>)
      requires Valid()
      modifies this
      ensures Valid()
      ensures r == old(Check(candidate, now))
      ensures r == Pass <==>
        old(isActive) && old(verifiedAtUtc).None? && candidate == Some(code) && now < expiresAtUtc
      ensures r == Pass ==> verifiedAtUtc == Some(now) && !isActive && verifications == 1
      ensures old(verifiedAtUtc).Some? ==> r.Fail?
      ensures r.Fail? ==> unchanged(this)
    {
      r := Check(candidate, now);
      if r == Pass {
        verifiedAtUtc := Some(now);
        isActive := false;
        verifications := verifications + 1;
      }
    }
  }

  /** A new code has six digits, expires after the creation instant, has no
      verification instant and is inactive. */
  method CreationScenario(now: Instant, lifetime: int, draws: seq<nat>)
    returns (codeLength: nat, expiresInFuture: bool, verifiedAtIsNull: bool, active: bool)
    requires lifetime > 0 && |draws| >= CodeLength
    ensures codeLength == 6 && expiresInFuture && verifiedAtIsNull && !active
  {
    var vc := new VerificationCode.ShouldCreate(now, lifetime, draws);
    codeLength := |vc.code|;
    expiresInFuture := vc.expiresAtUtc > now;
    verifiedAtIsNull := vc.verifiedAtUtc == None;
    active := vc.isActive;
  }

  /** On a new code, a null candidate, a well-formed "123456" and a wrong
      "WRONGCODE" are all rejected. */
  method RejectionScenario(now: Instant, lifetime: int, draws: seq<nat>)
    returns (onNull: Outcome<InvalidVerificationCodeException>,
             onInactive: Outcome<InvalidVerificationCodeException>,
             onWrongCode: Outcome<InvalidVerificationCodeException>)
    requires lifetime > 0 && |draws| >= CodeLength
    ensures onNull == Fail(InvalidVerificationCodeException(NullOrEmptyCode))
    ensures onInactive == Fail(InvalidVerificationCodeException(NotActive))
    ensures onWrongCode == Fail(InvalidVerificationCodeException(NotActive))
  {
    var vc := new VerificationCode.ShouldCreate(now, lifetime, draws);
    onNull := vc.ShouldVerify(None, now);
    onInactive := vc.ShouldVerify(Some("123456"), now);
    onWrongCode := vc.ShouldVerify(Some("WRONGCODE"), now);
  }

  /** Once activated, a code accepts itself once before it expires and then
      rejects itself as already verified. */
  method VerifyOnceScenario(now: Instant, lifetime: int, draws: seq<nat>)
    returns (first: Outcome<InvalidVerificationCodeException>,
             second: Outcome<InvalidVerificationCodeException>)
    requires lifetime > 0 && |draws| >= CodeLength
    ensures first == Pass
    ensures second == Fail(InvalidVerificationCodeException(AlreadyVerified))
  {
    var vc := new VerificationCode.ShouldCreate(now, lifetime, draws);
    vc.Activate();
    first := vc.ShouldVerify(Some(vc.code), now);
    second := vc.ShouldVerify(Some(vc.code), now);
  }

  /** An active code is rejected with a wrong candidate, and with its own
      code once its expiry instant has been reached. */
  method ActiveRejectionScenario(now: Instant, lifetime: int, draws: seq<nat>, wrong: string, later: Instant)
    returns (onWrongCode: Outcome<InvalidVerificationCodeException>,
             onExpired: Outcome<InvalidVerificationCodeException>)
    requires lifetime > 0 && |draws| >= CodeLength
    requires wrong != [] && wrong != CodeFromDraws(draws) && later >= now + lifetime
    ensures onWrongCode == Fail(InvalidVerificationCodeException(CodeMismatch))
    ensures onExpired == Fail(InvalidVerificationCodeException(CodeExpired))
  {
    var vc := new VerificationCode.ShouldCreate(now, lifetime, draws);
    vc.Activate();
    onWrongCode := vc.ShouldVerify(Some(wrong), now);
    onExpired := vc.ShouldVerify(Some(vc.code), later);
  }
}
