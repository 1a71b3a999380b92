/** The local MCP credential: 32 random bytes, accepted in one spelling only. */
module Credential {
  import opened Text
  import opened Base64

  const CREDENTIAL_BYTES := 32

  predicate Validate(credential: Bytes) {
    var raw := Decode(credential);
    raw.Some? && |raw.value| == CREDENTIAL_BYTES && Encode(raw.value) == credential
  }

  predicate Verify(expected: Bytes, presented: Bytes) {
    Validate(expected) && Validate(presented) && Decode(expected).value == Decode(presented).value
  }

  /** Accepted are the encodings of 32 bytes, and nothing else. */
  lemma ValidateExactly(credential: Bytes)
    ensures Validate(credential) <==> exists raw :: |raw| == CREDENTIAL_BYTES && credential == Encode(raw)
  {
    hide Encode;
    forall raw | |raw| == CREDENTIAL_BYTES && credential == Encode(raw) ensures Validate(credential) {
      DecodeEncode(raw);
    }
  }

  /** The same, character by character. */
  lemma ValidateSpelling(credential: Bytes)
    ensures Validate(credential) <==>
      && |credential| == 43
      && (forall i | 0 <= i < 43 :: LetterValue(credential[i]).Some?)
      && LetterValue(credential[42]).value % 4 == 0
  {
    hide Letter;
    hide LetterValue;
    hide Encode;
    hide Ungrouped;
    if Validate(credential) {
      EncodedLength(Decode(credential).value);
    }
    if |credential| == 43 && Letters(credential) {
      StripLetters(credential);
      UngroupedLength(credential);
      EncodeUngrouped(credential);
    }
  }

  /** Verification is equality of two accepted credentials. */
  lemma VerifyExactly(expected: Bytes, presented: Bytes)
    ensures Verify(expected, presented) <==> Validate(expected) && Validate(presented) && expected == presented
  {
  }

  /** The decoder alone would accept other spellings: a line break anywhere, or a spare bit set. */
  lemma DecoderIsLenient(credential: Bytes)
    requires Validate(credential)
    ensures Decode(credential + [10]) == Decode(credential) && !Validate(credential + [10])
    ensures exists other ::
              other != credential && |other| == 43 && Decode(other) == Decode(credential) && !Validate(other)
  {
    ValidateSpelling(credential);
    StripAppend(credential);
    StripLetters(credential);
    var last := LetterValue(credential[42]).value;
    var other := credential[42 := Letter(last + 1)];
    LetterRoundTrip(last + 1);
    ValidateSpelling(other);
    ValidateSpelling(credential + [10]);
    StripLetters(other);
    SpareBitIgnored(credential, other);
  }

  lemma {:induction false} StripAppend(t: Bytes)
    ensures Strip(t + [10]) == Strip(t)
  {
    if t != [] {
      assert (t + [10])[1..] == t[1..] + [10];
      StripAppend(t[1..]);
    } else {
      assert (t + [10])[1..] == [];
    }
  }

  lemma {:induction false} SpareBitIgnored(t: Bytes, u: Bytes)
    requires |t| == |u| && |t| % 4 == 3 && Letters(t) && Letters(u)
    requires forall i | 0 <= i < |t| - 1 :: t[i] == u[i]
    requires ValueAt(t, |t| - 1) / 4 == ValueAt(u, |t| - 1) / 4
    ensures Ungrouped(t) == Ungrouped(u)
  {
    hide LetterValue;
    if |t| > 3 {
      SpareBitIgnored(t[4..], u[4..]);
    }
  }
}
