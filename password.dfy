/**
  The Password value object: plaintext validation, the salted one-way hash
  kept in place of the plaintext, matching a plaintext against a stored
  hash, password generation, and the ExpiresAtUtc and MustChange fields.
 */
module Passwords {
  import opened Wrappers
  import opened Strings
  import opened StringExtensions
  import opened Clock

  const MinLength: nat := 8
  const MaxLength: nat := 48
  const SaltSize: nat := 16
  const KeySize: nat := 32

  const NullOrEmptyMessage: string := "Password cannot be null or empty"
  const TooShortMessage: string := "Password should have at least 8 characters"
  const TooLongMessage: string := "Password should have less than 48 characters"

  /** InvalidPasswordException, raised with one of the three messages above. */
  datatype InvalidPasswordException = InvalidPasswordException(message: string)

  /** The checks Password.ShouldCreate makes before hashing, in their order:
      blank first, then too short, then too long; lengths are string.Length. */
  function CheckPlaintext(plain: Option<string>): (r: Outcome<InvalidPasswordException>)
    ensures r == Pass <==>
      !IsNullOrWhiteSpace(plain) && MinLength <= Utf16Length(plain.value) < MaxLength
    ensures IsNullOrWhiteSpace(plain) ==> r == Fail(InvalidPasswordException(NullOrEmptyMessage))
    ensures !IsNullOrWhiteSpace(plain) && Utf16Length(plain.value) < MinLength ==>
      r == Fail(InvalidPasswordException(TooShortMessage))
    ensures !IsNullOrWhiteSpace(plain) && Utf16Length(plain.value) >= MaxLength ==>
      r == Fail(InvalidPasswordException(TooLongMessage))
  {
    if IsNullOrWhiteSpace(plain) then Fail(InvalidPasswordException(NullOrEmptyMessage))
    else if Utf16Length(plain.value) < MinLength then Fail(InvalidPasswordException(TooShortMessage))
    else if Utf16Length(plain.value) >= MaxLength then Fail(InvalidPasswordException(TooLongMessage))
    else Pass
  }

  type Salt = s: seq<byte> | |s| == SaltSize witness seq(SaltSize, _ => 0)
  type Key = k: seq<byte> | |k| == KeySize witness seq(KeySize, _ => 0)

  /** The key-derivation primitive (a salted, iterated one-way function).
      Its internals are not modelled: only that it is a function of the salt
      and the plaintext that yields KeySize bytes. */
  type KeyDerivation = (Salt, string) -> Key

  /** The stored form of a password: the Base64 salt and the Base64 derived
      key, joined by a dot. */
  function HashOf(kdf: KeyDerivation, salt: Salt, plain: string): (h: string)
    ensures |h| == 69
  {
    Encode(salt) + "." + Encode(kdf(salt, plain))
  }

  /** Password.ShouldMatch: splits the stored hash at its dot, decodes salt
      and key and compares the key derived from the candidate with it. A
      match means the hash is what hashing the candidate under some salt
      gives; MatchIffHashOf adds the converse. */
  function ShouldMatch(kdf: KeyDerivation, hash: string, candidate: string): (m: bool)
    ensures m ==> exists salt: Salt :: hash == HashOf(kdf, salt, candidate)
  {
    var parts := Split(hash, '.');
    if |parts| != 2 then false
    else match (Decode(parts[0]), Decode(parts[1]))
      case (Some(salt), Some(key)) =>
        if |salt| == SaltSize && kdf(salt, candidate) == key then
          EncodeDecode(parts[0]);
          EncodeDecode(parts[1]);
          assert hash == parts[0] + "." + parts[1];
          assert hash == HashOf(kdf, salt, candidate);
          true
        else
          false
      case _ => false
  }

  /** No Base64 text contains a dot. */
  lemma NoDotInBase64(b: seq<byte>)
    ensures '.' !in Encode(b)
  {
    var e := Encode(b);
    forall i | 0 <= i < |e| ensures e[i] != '.' {
      if i < |e| - Padding(|b|) {
        assert IsAlphabetChar(e[i]);
      }
    }
  }

  /** A stored hash matches exactly the candidates that derive the same key
      under its salt; in particular it matches the plaintext it was made from. */
  lemma MatchCharacterisation(kdf: KeyDerivation, salt: Salt, plain: string, candidate: string)
    ensures ShouldMatch(kdf, HashOf(kdf, salt, plain), candidate)
        <==> kdf(salt, candidate) == kdf(salt, plain)
    ensures ShouldMatch(kdf, HashOf(kdf, salt, plain), plain)
  {
    var s64, k64 := Encode(salt), Encode(kdf(salt, plain));
    NoDotInBase64(salt);
    NoDotInBase64(kdf(salt, plain));
    assert HashOf(kdf, salt, plain) == Join([s64, k64], '.');
    SplitJoin([s64, k64], '.');
    DecodeEncode(salt);
    DecodeEncode(kdf(salt, plain));
  }

  /** A stored hash matches a candidate exactly when it is the hash of that
      candidate under some salt. */
  lemma MatchIffHashOf(kdf: KeyDerivation, hash: string, candidate: string)
    ensures ShouldMatch(kdf, hash, candidate)
        <==> exists salt: Salt :: hash == HashOf(kdf, salt, candidate)
  {
    if exists salt: Salt :: hash == HashOf(kdf, salt, candidate) {
      var salt: Salt :| hash == HashOf(kdf, salt, candidate);
      MatchCharacterisation(kdf, salt, candidate, candidate);
    }
  }

  const Lowercase: string := "abcdefghijklmnopqrstuvwxyz"
  const Uppercase: string := "ABCDEFGHIJKLMNOPQRSTUVWXYZ"
  const Digits: string := "0123456789"
  /** The special characters; the sixth is U+02C6, not the ASCII caret. */
  const Symbols: string := "!@#$%\U{02C6}&*(){}[];"

  /** The characters a generated password draws its free positions from. */
  function Pool(includeUppercase: bool, includeSymbols: bool): (pool: string)
    ensures |pool| > 0
  {
    Lowercase + Digits + (if includeUppercase then Uppercase else "")
      + (if includeSymbols then Symbols else "")
  }

  /** The position reserved for a symbol: the first one after the reserved
      upper-case letter, if any. */
  function SymbolSlot(includeUppercase: bool): nat {
    if includeUppercase then 1 else 0
  }

  /** The character at position i of a generated password, for the random
      draw d: an upper-case letter at position 0 when upper case is asked
      for, a symbol at SymbolSlot when symbols are asked for, and a character
      of the pool everywhere else. */
  function GeneratedChar(i: nat, includeUppercase: bool, includeSymbols: bool, d: nat): char {
    if includeUppercase && i == 0 then Uppercase[d % |Uppercase|]
    else if includeSymbols && i == SymbolSlot(includeUppercase) then Symbols[d % |Symbols|]
    else Pool(includeUppercase, includeSymbols)[d % |Pool(includeUppercase, includeSymbols)|]
  }

  /** The password the draws produce. */
  function Generated(length: nat, includeUppercase: bool, includeSymbols: bool, draws: seq<nat>): string
    requires |draws| >= length
  {
    seq(length, i requires 0 <= i < length => GeneratedChar(i, includeUppercase, includeSymbols, draws[i]))
  }

  /** Password.ShouldGenerate: fills a buffer of the requested length one
      position at a time; the random draws are an input. */
  method ShouldGenerate(length: nat, includeUppercase: bool, includeSymbols: bool, draws: seq<nat>)
    returns (p: string)
    requires |draws| >= length
    ensures p == Generated(length, includeUppercase, includeSymbols, draws)
  {
    var buffer := new char[length];
    var i := 0;
    while i < length
      invariant 0 <= i <= length
      invariant forall j :: 0 <= j < i ==>
                  buffer[j] == GeneratedChar(j, includeUppercase, includeSymbols, draws[j])
    {
      buffer[i] := GeneratedChar(i, includeUppercase, includeSymbols, draws[i]);
      i := i + 1;
    }
    p := buffer[..];
  }

  /** Every character of Uppercase is an upper-case ASCII letter. */
  lemma UppercaseLetters(k: nat)
    requires k < |Uppercase|
    ensures IsAsciiUpper(Uppercase[k])
  {
  }

  /** Where the upper-case letters and the symbols sit in the pool. */
  lemma PoolLayout(includeUppercase: bool, includeSymbols: bool, k: nat)
    ensures includeUppercase && k < |Uppercase| ==>
              Pool(includeUppercase, includeSymbols)[|Lowercase| + |Digits| + k] == Uppercase[k]
    ensures includeSymbols && k < |Symbols| ==>
              Pool(includeUppercase, includeSymbols)[|Lowercase| + |Digits|
                + (if includeUppercase then |Uppercase| else 0) + k] == Symbols[k]
  {
  }

  /** Every character of a generated password comes from the pool. */
  lemma GeneratedInPool(length: nat, includeUppercase: bool, includeSymbols: bool, draws: seq<nat>, i: nat)
    requires |draws| >= length && i < length
    ensures Generated(length, includeUppercase, includeSymbols, draws)[i] in Pool(includeUppercase, includeSymbols)
  {
    var p := Generated(length, includeUppercase, includeSymbols, draws);
    var pool := Pool(includeUppercase, includeSymbols);
    var d := draws[i];
    if includeUppercase && i == 0 {
      PoolLayout(includeUppercase, includeSymbols, d % |Uppercase|);
      assert pool[|Lowercase| + |Digits| + d % |Uppercase|] == p[i];
    } else if includeSymbols && i == SymbolSlot(includeUppercase) {
      PoolLayout(includeUppercase, includeSymbols, d % |Symbols|);
      var k := |Lowercase| + |Digits| + (if includeUppercase then |Uppercase| else 0) + d % |Symbols|;
      assert pool[k] == p[i];
    } else {
      assert p[i] == pool[d % |pool|];
    }
  }

  /** A generated password has the requested length, only pool characters,
      an upper-case letter when upper case is asked for and a symbol when
      symbols are asked for and there is room for one. */
  lemma GeneratedProperties(length: nat, includeUppercase: bool, includeSymbols: bool, draws: seq<nat>)
    requires |draws| >= length
    ensures |Generated(length, includeUppercase, includeSymbols, draws)| == length
    ensures forall i :: 0 <= i < length ==>
              Generated(length, includeUppercase, includeSymbols, draws)[i] in Pool(includeUppercase, includeSymbols)
    ensures includeUppercase && length >= 1 ==>
              exists i :: 0 <= i < length && IsAsciiUpper(Generated(length, includeUppercase, includeSymbols, draws)[i])
    ensures includeSymbols && length > SymbolSlot(includeUppercase) ==>
              exists i :: 0 <= i < length && Generated(length, includeUppercase, includeSymbols, draws)[i] in Symbols
  {
    var p := Generated(length, includeUppercase, includeSymbols, draws);
    forall i | 0 <= i < length ensures p[i] in Pool(includeUppercase, includeSymbols) {
      GeneratedInPool(length, includeUppercase, includeSymbols, draws, i);
    }
    if includeUppercase && length >= 1 {
      UppercaseLetters(draws[0] % |Uppercase|);
      assert p[0] == Uppercase[draws[0] % |Uppercase|];
    }
    if includeSymbols && length > SymbolSlot(includeUppercase) {
      var j := SymbolSlot(includeUppercase);
      assert p[j] == Symbols[draws[j] % |Symbols|];
    }
  }

  /** A Password: the stored hash and the two fields the account changes
      later on. */
  class Password {
    const hash: string
    var expiresAtUtc: Option<Instant>
    var mustChange: bool

    /** A password with the given hash, no expiry and no forced change. */
    constructor FromHash(hash: string)
      ensures this.hash == hash && expiresAtUtc == None && !mustChange
    {
      this.hash := hash;
      expiresAtUtc := None;
      mustChange := false;
    }

    /** Password.ShouldCreate: validates the plaintext and keeps only its
        salted hash, which matches the plaintext and differs from it; a new
        password has no expiry and need not be changed. The salt is the
        random draw. */
    static method ShouldCreate(plain: Option<string>, kdf: KeyDerivation, salt: Salt)
      returns (r: Result<Password, InvalidPasswordException>)
      ensures r.Failure? <==> CheckPlaintext(plain).Fail?
      ensures r.Failure? ==> r.error == CheckPlaintext(plain).error
      ensures r.Success? ==> fresh(r.value) && r.value.hash == HashOf(kdf, salt, plain.value)
      ensures r.Success? ==> r.value.hash != plain.value && ShouldMatch(kdf, r.value.hash, plain.value)
      ensures r.Success? ==> r.value.expiresAtUtc == None && !r.value.mustChange
    {
      var check := CheckPlaintext(plain);
      if check.Fail? {
        r := Failure(check.error);
      } else {
        MatchCharacterisation(kdf, salt, plain.value, plain.value);
        var p := new Password.FromHash(HashOf(kdf, salt, plain.value));
        r := Success(p);
      }
    }

    /** Both the implicit string conversion and ToString() give the hash. */
    function ToString(): (s: string)
      ensures s == hash
    {
      hash
    }

    /** A password is expired when it has an expiry instant before now. */
    predicate IsExpired(now: Instant): (expired: bool)
      reads this
      ensures expired ==> expiresAtUtc.Some?
      ensures expiresAtUtc.Some? ==> (expired <==> now > expiresAtUtc.value)
    {
      expiresAtUtc.Some? && expiresAtUtc.value < now
    }

    /** Sets ExpiresAtUtc, leaving the hash and MustChange alone. */
    method SetExpiresAtUtc(at: Option<Instant>)
      modifies this
      ensures expiresAtUtc == at && mustChange == old(mustChange)
    {
      expiresAtUtc := at;
    }
  }

  const TicksPerDay: int := 864_000_000_000

  /** A new password is not expired and need not be changed; once its
      expiry is set to a day before now, it is expired. */
  method ExpiryScenario(plain: string, kdf: KeyDerivation, salt: Salt, now: Instant)
    returns (unsetAtCreation: bool, mustChangeAtCreation: bool, expiredAtCreation: bool,
             expiredAfterBackdating: bool)
    requires CheckPlaintext(Some(plain)) == Pass
    ensures unsetAtCreation && !mustChangeAtCreation && !expiredAtCreation
    ensures expiredAfterBackdating
  {
    var r := Password.ShouldCreate(Some(plain), kdf, salt);
    var p := r.value;
    unsetAtCreation := p.expiresAtUtc == None;
    mustChangeAtCreation := p.mustChange;
    expiredAtCreation := p.IsExpired(now);
    p.SetExpiresAtUtc(Some(now - TicksPerDay));
    expiredAfterBackdating := p.IsExpired(now);
  }

  /** The plaintexts the rules reject, with the message for each: null,
      empty and blank ones first, then seven characters, then 49. */
  lemma RejectedPlaintexts(blank: string, short: string)
    requires blank == "   " && short == "1234567"
    ensures CheckPlaintext(None) == Fail(InvalidPasswordException(NullOrEmptyMessage))
    ensures CheckPlaintext(Some("")) == Fail(InvalidPasswordException(NullOrEmptyMessage))
    ensures CheckPlaintext(Some(blank)) == Fail(InvalidPasswordException(NullOrEmptyMessage))
    ensures CheckPlaintext(Some(short)) == Fail(InvalidPasswordException(TooShortMessage))
    ensures CheckPlaintext(Some(seq(49, _ => 'a'))) == Fail(InvalidPasswordException(TooLongMessage))
  {
    assert short[0] == '1';
    var long := seq(49, _ => 'a');
    assert long[0] == 'a';
  }

  /** "SecureP@ssw0rd" and "ExpiredP@ssword" pass every check. */
  lemma AcceptedPlaintexts(secure: string, expired: string)
    requires secure == "SecureP@ssw0rd" && expired == "ExpiredP@ssword"
    ensures CheckPlaintext(Some(secure)) == Pass
    ensures CheckPlaintext(Some(expired)) == Pass
  {
    assert !IsWhiteSpace(secure[0]) && !IsWhiteSpace(expired[0]);
  }
}
