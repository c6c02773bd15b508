/**
 * Contact search (`search`): the trimmed query is classified as an email, a
 * phone number or a username prefix, phone queries are rewritten to the
 * stored international form, and at most ten completed accounts other than
 * the caller's are returned, each with the field to display.
 */
module Search {
  import opened Wrappers
  import opened Text
  import opened Phone
  import opened Clients

  datatype QueryKind = ByEmail | ByPhone | ByUsername

  /** The characters of `^[\d\+\s\-\(\)]+$`. */
  predicate IsPhoneChar(c: char) {
    IsDigit(c) || c == '+' || IsRegexSpace(c) || c == '-' || c == '(' || c == ')'
  }

  predicate LooksLikePhone(q: string) {
    |q| > 0 && forall i :: 0 <= i < |q| ==> IsPhoneChar(q[i])
  }

  /** First match wins: an `@` makes an email, phone characters only make a phone. */
  function Classify(q: string): (k: QueryKind)
    ensures k == ByEmail <==> '@' in q
    ensures k == ByPhone <==> '@' !in q && LooksLikePhone(q)
  {
    if '@' in q then ByEmail
    else if LooksLikePhone(q) then ByPhone
    else ByUsername
  }

  /**
   * The number a phone query is compared with: ten or more digits with a
   * leading zero are read as a Nigerian local number (`+234` and the digits
   * without their leading zeros); any other digit string just gets a `+`.
   */
  function SearchPhone(q: string): (r: string)
    ensures |r| >= 1 && r[0] == '+' && AllDigits(r[1..])
  {
    var digits := DigitsOf(q);
    var tail := if |digits| >= 10 && digits[0] == '0' then "234" + LTrim(digits, '0') else digits;
    assert AllDigits(tail) by {
      if |digits| >= 10 && digits[0] == '0' {
        DigitsConcat("234", LTrim(digits, '0'));
      }
    }
    assert ("+" + tail)[1..] == tail;
    "+" + tail
  }

  lemma DigitsConcat(a: string, b: string)
    requires AllDigits(a) && AllDigits(b)
    ensures AllDigits(a + b)
  {
    forall i | 0 <= i < |a + b| ensures IsDigit((a + b)[i]) {
      if i < |a| { assert (a + b)[i] == a[i]; } else { assert (a + b)[i] == b[i - |a|]; }
    }
  }

  /** Typing a stored number exactly as it is stored finds it. */
  lemma SearchFindsStoredPhone(p: string)
    requires IsE164(p)
    ensures SearchPhone(p) == p
  {
    assert p == [p[0]] + p[1..];
    assert DigitsOf(p) == DigitsOf(p[1..]);
    assert AllDigits(p[1..]) by {
      forall i | 0 <= i < |p[1..]| ensures IsDigit(p[1..][i]) {
        if i > 0 { assert p[1..][i] == p[2..][i - 1]; }
      }
    }
    assert DigitsOf(p) == p[1..];
  }

  /**
   * Any all-digit query of ten or more digits with a leading zero, whatever
   * its length, is searched for as `+234` and its digits without leading
   * zeros: the very number `savePhonePin` builds from it under +234.
   */
  lemma LocalNumberSearchMatchesSaved(local: string)
    requires AllDigits(local) && |local| >= 10 && local[0] == '0'
    ensures SearchPhone(local) == FullPhone("+234", local)
  {
    assert DigitsOf(local) == local;
    assert "+" + ("234" + LTrim(local, '0')) == "+234" + LTrim(local, '0');
  }

  /** Spaces, dashes, brackets and `+` in a phone query do not change the number searched for. */
  lemma SearchPhoneIgnoresPunctuation(q: string)
    ensures SearchPhone(q) == SearchPhone(DigitsOf(q))
  {
    assert DigitsOf(DigitsOf(q)) == DigitsOf(q);
  }

  /**
   * A digit string that is not a Nigerian local number (fewer than ten digits,
   * or no leading zero) is searched for as `+` followed by those digits.
   */
  lemma SearchPhoneOtherDigits(d: string)
    requires AllDigits(d) && !(|d| >= 10 && d[0] == '0')
    ensures SearchPhone(d) == "+" + d
  {
    assert DigitsOf(d) == d;
  }

  /**
   * A Nigerian local number typed with any punctuation between its digits
   * (such as "0801 234 5678") finds the number stored for it under +234.
   */
  lemma PunctuatedLocalNumberMatchesSaved(q: string, local: string)
    requires DigitsOf(q) == local
    requires AllDigits(local) && |local| >= 10 && local[0] == '0'
    ensures SearchPhone(q) == FullPhone("+234", local)
  {
    SearchPhoneIgnoresPunctuation(q);
    LocalNumberSearchMatchesSaved(local);
  }

  /** A non-digit separator before a group of digits leaves just that group. */
  lemma DigitsOfSeparated(a: string, sep: char, b: string)
    requires AllDigits(b) && !IsDigit(sep)
    ensures DigitsOf(a + [sep] + b) == DigitsOf(a) + b
  {
    DigitsOfConcat(a + [sep], b);
    DigitsOfConcat(a, [sep]);
    DigitsOfChar(sep);
  }

  /** The query "0801 234 5678" is searched for as the stored "+2348012345678". */
  lemma SpacedLocalNumberExample(q: string, a: string, b: string, c: string)
    requires a == "0801" && b == "234" && c == "5678" && q == a + " " + b + " " + c
    ensures SearchPhone(q) == "+2348012345678"
  {
    assert AllDigits(a) && AllDigits(b) && AllDigits(c);
    assert q == a + [' '] + b + [' '] + c;
    DigitsOfSeparated(a + [' '] + b, ' ', c);
    DigitsOfSeparated(a, ' ', b);
    var local := a + b + c;
    assert local == "08012345678";
    PunctuatedLocalNumberMatchesSaved(q, local);
    FullPhoneExample("+234", local);
  }

  /** The value of the column a query of kind `k` is compared with. */
  function Field(c: Client, k: QueryKind): Option<string> {
    match k
    case ByEmail => Some(c.email)
    case ByPhone => c.phone
    case ByUsername => c.username
  }

  /**
   * What a result shows: the searched field, or when that is empty the
   * username, then the phone, then the email.
   */
  function Display(c: Client, k: QueryKind): (d: string)
    ensures Truthy(Field(c, k)) ==> d == Field(c, k).value
    ensures !Truthy(Field(c, k)) && Truthy(c.username) ==> d == c.username.value
    ensures !Truthy(Field(c, k)) && !Truthy(c.username) && Truthy(c.phone) ==> d == c.phone.value
    ensures !Truthy(Field(c, k)) && !Truthy(c.username) && !Truthy(c.phone) ==> d == c.email
    ensures d == c.email || Some(d) == c.username || Some(d) == c.phone
  {
    var primary := Field(c, k);
    if Truthy(primary) then primary.value
    else if Truthy(c.username) then c.username.value
    else if Truthy(c.phone) then c.phone.value
    else c.email
  }

  /** The filter of the query: not the caller, completed, and the classified condition. */
  predicate Matches(c: Client, me: nat, k: QueryKind, q: string) {
    && c.id != me
    && c.accountCompleted
    && match k
       case ByEmail => Lower(c.email) == Lower(q)
       case ByPhone => c.phone == Some(SearchPhone(q))
       case ByUsername => c.username.Some? && Lower(q) <= Lower(c.username.value)
  }

  /** The matching clients, in table order. */
  function Matching(cs: seq<Client>, me: nat, k: QueryKind, q: string): (r: seq<Client>)
    ensures |r| <= |cs|
    ensures forall c :: c in r <==> c in cs && Matches(c, me, k, q)
    ensures forall c :: multiset(r)[c] == if Matches(c, me, k, q) then multiset(cs)[c] else 0
  {
    if cs == [] then []
    else
      assert cs == [cs[0]] + cs[1..];
      (if Matches(cs[0], me, k, q) then [cs[0]] else []) + Matching(cs[1..], me, k, q)
  }

  datatype Hit = Hit(id: nat, display: string, displayType: QueryKind,
                     username: Option<string>, profileImage: Option<string>)

  function HitOf(c: Client, k: QueryKind): Hit {
    Hit(c.id, Display(c, k), k, c.username, c.profileImage)
  }

  const ResultLimit := 10

  datatype SearchReply = SearchInvalid | Results(kind: QueryKind, hits: seq<Hit>)

  /**
   * `search` for the client with id `me`: at most ten hits, each one a
   * matching client; when fewer than ten come back, every match is there.
   */
  function Search(cs: seq<Client>, me: nat, query: string): (r: SearchReply)
    ensures r.SearchInvalid? <==> !(Present(query) && 2 <= |query| <= 120)
    ensures r.Results? ==> r.kind == Classify(Trim(query)) && |r.hits| <= ResultLimit
    ensures r.Results? ==> forall h :: h in r.hits ==>
      exists c :: c in cs && Matches(c, me, r.kind, Trim(query)) && h == HitOf(c, r.kind)
    ensures r.Results? && |r.hits| < ResultLimit ==> forall c :: c in cs && Matches(c, me, r.kind, Trim(query)) ==>
      HitOf(c, r.kind) in r.hits
    ensures r.Results? ==> multiset(r.hits) <= multiset(Hits(Matching(cs, me, r.kind, Trim(query)), r.kind))
  {
    if !(Present(query) && 2 <= |query| <= 120) then SearchInvalid
    else
      var q := Trim(query);
      var k := Classify(q);
      var m := Matching(cs, me, k, q);
      var shown := if |m| <= ResultLimit then m else m[..ResultLimit];
      HitsOfShown(m, shown, k);
      Results(k, Hits(shown, k))
  }

  /** The hits for the clients shown, in the same order. */
  function Hits(shown: seq<Client>, k: QueryKind): (r: seq<Hit>)
    ensures |r| == |shown|
    ensures forall i :: 0 <= i < |shown| ==> r[i] == HitOf(shown[i], k)
  {
    if shown == [] then [] else [HitOf(shown[0], k)] + Hits(shown[1..], k)
  }

  lemma HitsOfShown(m: seq<Client>, shown: seq<Client>, k: QueryKind)
    requires shown == m || (|m| > ResultLimit && shown == m[..ResultLimit])
    ensures forall h :: h in Hits(shown, k) ==> exists c :: c in m && h == HitOf(c, k)
    ensures |Hits(shown, k)| < ResultLimit ==> forall c :: c in m ==> HitOf(c, k) in Hits(shown, k)
    ensures multiset(Hits(shown, k)) <= multiset(Hits(m, k))
  {
    assert shown == m[..|shown|];
    HitsFromShown(m, |shown|, k);
    if |shown| < ResultLimit {
      HitsOfAll(m, k);
    }
    HitsOfPrefix(m, |shown|, k);
  }

  /** Every hit of a prefix is the hit of some client in the whole. */
  lemma HitsFromShown(m: seq<Client>, n: nat, k: QueryKind)
    requires n <= |m|
    ensures forall h :: h in Hits(m[..n], k) ==> exists c :: c in m && h == HitOf(c, k)
  {
    var hits := Hits(m[..n], k);
    forall h | h in hits ensures exists c :: c in m && h == HitOf(c, k) {
      var i :| 0 <= i < |hits| && hits[i] == h;
      assert m[..n][i] in m;
    }
  }

  /** Every client has its hit among the hits of all clients. */
  lemma HitsOfAll(m: seq<Client>, k: QueryKind)
    ensures forall c :: c in m ==> HitOf(c, k) in Hits(m, k)
  {
    var hits := Hits(m, k);
    forall c | c in m ensures HitOf(c, k) in hits {
      var i :| 0 <= i < |m| && m[i] == c;
      assert hits[i] == HitOf(c, k);
    }
  }

  /** The hits of a prefix are a prefix of the hits, so no hit occurs more often than among all hits. */
  lemma HitsOfPrefix(m: seq<Client>, n: nat, k: QueryKind)
    requires n <= |m|
    ensures multiset(Hits(m[..n], k)) <= multiset(Hits(m, k))
  {
    var all := Hits(m, k);
    var pre := Hits(m[..n], k);
    assert pre == all[..n] by {
      forall i | 0 <= i < n ensures pre[i] == all[i] {
        assert m[..n][i] == m[i];
      }
    }
    PrefixCounts(all, n);
  }

  lemma PrefixCounts<T>(s: seq<T>, n: nat)
    requires n <= |s|
    ensures multiset(s[..n]) <= multiset(s)
  {
    assert s == s[..n] + s[n..];
  }

  /** Every hit of an email query shows the email that was asked for, in any letter case. */
  lemma EmailHitsShowEmail(cs: seq<Client>, me: nat, query: string)
    requires Search(cs, me, query).Results? && Search(cs, me, query).kind == ByEmail
    ensures forall h :: h in Search(cs, me, query).hits ==> Lower(h.display) == Lower(Trim(query))
  {
    var q := Trim(query);
    forall h | h in Search(cs, me, query).hits ensures Lower(h.display) == Lower(q) {
      var c :| c in cs && Matches(c, me, ByEmail, q) && h == HitOf(c, ByEmail);
      EmailMatchShown(c, me, q);
    }
  }

  /** An email match is shown by its email: it holds an `@`, so it is never empty or "0". */
  lemma EmailMatchShown(c: Client, me: nat, q: string)
    requires '@' in q && Matches(c, me, ByEmail, q)
    ensures Lower(Display(c, ByEmail)) == Lower(q)
  {
    var j :| 0 <= j < |q| && q[j] == '@';
    assert Lower(q)[j] == '@';
    assert Lower(c.email)[j] == '@';
    assert Truthy(Some(c.email)) by { assert |c.email| > j && c.email[j] == '@'; }
  }

  /** Every hit of a phone query shows the number that was searched for. */
  lemma PhoneHitsShowPhone(cs: seq<Client>, me: nat, query: string)
    requires Search(cs, me, query).Results? && Search(cs, me, query).kind == ByPhone
    ensures forall h :: h in Search(cs, me, query).hits ==> h.display == SearchPhone(Trim(query))
  {
    var q := Trim(query);
    forall h | h in Search(cs, me, query).hits ensures h.display == SearchPhone(q) {
      var c :| c in cs && Matches(c, me, ByPhone, q) && h == HitOf(c, ByPhone);
      assert Truthy(c.phone) by { assert c.phone.value[0] == '+'; }
    }
  }

  /** Every hit of a username query shows a username starting with it, in any letter case. */
  lemma UsernameHitsShowUsername(cs: seq<Client>, me: nat, query: string)
    requires Search(cs, me, query).Results? && Search(cs, me, query).kind == ByUsername
    ensures forall h :: h in Search(cs, me, query).hits ==> Lower(Trim(query)) <= Lower(h.display)
  {
    var q := Trim(query);
    assert Present(query);
    PresentNotBlank(query);
    assert !LooksLikePhone(q);
    forall h | h in Search(cs, me, query).hits ensures Lower(q) <= Lower(h.display) {
      var c :| c in cs && Matches(c, me, ByUsername, q) && h == HitOf(c, ByUsername);
      UsernameMatchShown(c, me, q);
    }
  }

  /** A username match is shown by its username: it is neither empty nor "0", which would read as false. */
  lemma UsernameMatchShown(c: Client, me: nat, q: string)
    requires q != [] && !LooksLikePhone(q) && Matches(c, me, ByUsername, q)
    ensures Display(c, ByUsername) == c.username.value
  {
    var u := c.username.value;
    assert |u| >= |q|;
  }
}
