/**
 * Phone numbers as `savePhonePin` builds them: the country code followed by
 * the digits of the local number with every leading zero removed, accepted
 * only in the international shape `+` and 7 to 15 digits, the first non-zero
 * (ITU-T Recommendation E.164 allows at most 15 digits in a number).
 */
module Phone {
  import opened Text

  /** The `country_code` rule `^\+[1-9]\d{0,3}$`. */
  predicate IsCountryCode(cc: string) {
    2 <= |cc| <= 5 && cc[0] == '+' && '1' <= cc[1] <= '9' && AllDigits(cc[2..])
  }

  /** The `phone` rule `^\d{4,14}$`. */
  predicate IsLocalNumber(p: string) {
    4 <= |p| <= 14 && AllDigits(p)
  }

  /** The final check `^\+[1-9]\d{6,14}$`. */
  predicate IsE164(s: string) {
    8 <= |s| <= 16 && s[0] == '+' && '1' <= s[1] <= '9' && AllDigits(s[2..])
  }

  /** The digits of the local number, without punctuation and without any leading zero. */
  function Subscriber(raw: string): (r: string)
    ensures AllDigits(r) && |r| <= |raw|
    ensures r == [] || r[0] != '0'
    ensures AllDigits(raw) ==> r == LTrim(raw, '0')
  {
    LTrim(DigitsOf(raw), '0')
  }

  /** The number stored on the client: country code, then the subscriber digits. */
  function FullPhone(cc: string, raw: string): (r: string)
    ensures |r| >= |cc| && r[..|cc|] == cc && AllDigits(r[|cc|..])
    ensures |r| > |cc| ==> r[|cc|] != '0'
    ensures AllDigits(raw) ==> r == cc + LTrim(raw, '0')
  {
    cc + Subscriber(raw)
  }

  /**
   * With a valid country code the built number passes the final check exactly
   * when it carries 7 to 15 digits in all.
   */
  lemma FullPhoneFormat(cc: string, raw: string)
    requires IsCountryCode(cc)
    ensures IsE164(FullPhone(cc, raw)) <==> 7 <= |cc| - 1 + |Subscriber(raw)| <= 15
  {
    var r := FullPhone(cc, raw);
    if 7 <= |cc| - 1 + |Subscriber(raw)| <= 15 {
      assert forall i :: 2 <= i < |r| ==> IsDigit(r[i]) by {
        forall i | 2 <= i < |r| ensures IsDigit(r[i]) {
          if i < |cc| { assert r[i] == cc[2..][i - 2]; } else { assert r[i] == r[|cc|..][i - |cc|]; }
        }
      }
    }
  }

  /** A trunk zero before a local number that starts with a non-zero digit is dropped. */
  lemma TrunkZeroDropped(cc: string, local: string)
    requires AllDigits(local) && local != [] && local[0] != '0'
    ensures FullPhone(cc, "0" + local) == cc + local
  {
    FullPhoneIgnoresTrunkZeros(cc, local);
  }

  /** A Nigerian number typed with its trunk zero is stored in international form. */
  lemma FullPhoneExample(cc: string, raw: string)
    requires cc == "+234" && raw == "08012345678"
    ensures FullPhone(cc, raw) == "+2348012345678"
  {
    var local := raw[1..];
    assert raw == "0" + local;
    assert local == "8012345678";
    assert AllDigits(local);
    TrunkZeroDropped(cc, local);
  }

  /** A leading `0` or `-` before the local number does not change the stored number. */
  lemma {:induction false} FullPhoneIgnoresTrunkZeros(cc: string, raw: string)
    ensures FullPhone(cc, "0" + raw) == FullPhone(cc, raw)
    ensures FullPhone(cc, "-" + raw) == FullPhone(cc, raw)
  {
    assert ("0" + raw)[1..] == raw;
    assert ("-" + raw)[1..] == raw;
  }

  /** Only the digits of the typed local number matter: punctuation anywhere in it is ignored. */
  lemma FullPhoneIgnoresPunctuation(cc: string, raw: string)
    ensures FullPhone(cc, raw) == FullPhone(cc, DigitsOf(raw))
  {
    assert DigitsOf(DigitsOf(raw)) == DigitsOf(raw);
  }

  /** Removing one non-digit character, wherever it stands, leaves the stored number unchanged. */
  lemma FullPhoneIgnoresSeparator(cc: string, a: string, c: char, b: string)
    requires !IsDigit(c)
    ensures FullPhone(cc, a + [c] + b) == FullPhone(cc, a + b)
  {
    DigitsOfConcat(a + [c], b);
    DigitsOfConcat(a, [c]);
    DigitsOfChar(c);
    DigitsOfConcat(a, b);
    assert DigitsOf(a + [c] + b) == DigitsOf(a + b);
  }
}
