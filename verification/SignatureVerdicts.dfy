/** Which deliveries the signature schemes accept and refuse, over all headers: each verdict is given by a
  * condition on the header text and on the value of the mac, stated without the schemes' own parsing.
  */
module SignatureVerdicts {
  import opened Collections
  import opened Text
  import opened Signatures

  // ---------------------------------------------------------------------
  // Headers and digests
  // ---------------------------------------------------------------------

  /** The value of the first header of that name. */
  ghost predicate FirstExact(headers: Headers, name: string, value: string) {
    exists i :: 0 <= i < |headers| && headers[i] == (name, value) && forall j :: 0 <= j < i ==> headers[j].0 != name
  }

  ghost predicate Named(headers: Headers, name: string) {
    exists i :: 0 <= i < |headers| && headers[i].0 == name
  }

  ghost predicate FirstButCase(headers: Headers, name: string, value: string) {
    exists i :: 0 <= i < |headers| && headers[i].1 == value && Lower(headers[i].0) == Lower(name) &&
                forall j :: 0 <= j < i ==> Lower(headers[j].0) != Lower(name)
  }

  lemma {:induction false} GetIff(headers: Headers, name: string)
    ensures Get(headers, name) == None <==> !Named(headers, name)
    ensures forall v :: Get(headers, name) == Some(v) <==> FirstExact(headers, name, v)
  {
    if headers != [] {
      var rest := headers[1..];
      GetIff(rest, name);
      assert forall i :: 0 <= i < |rest| ==> rest[i] == headers[i + 1];
      if headers[0].0 == name {
        assert headers[0] == (name, headers[0].1);
      } else {
        NamedLater(headers, name);
        forall v ensures FirstExact(headers, name, v) <==> FirstExact(rest, name, v) {
          FirstExactLater(headers, name, v);
        }
      }
    }
  }

  lemma NamedLater(headers: Headers, name: string)
    requires headers != [] && headers[0].0 != name
    ensures Named(headers, name) <==> Named(headers[1..], name)
  {
    if i :| 0 <= i < |headers| && headers[i].0 == name {
      assert headers[1..][i - 1].0 == name;
    }
    if i :| 0 <= i < |headers[1..]| && headers[1..][i].0 == name {
      assert headers[i + 1].0 == name;
    }
  }

  lemma FirstExactLater(headers: Headers, name: string, v: string)
    requires headers != [] && headers[0].0 != name
    ensures FirstExact(headers, name, v) <==> FirstExact(headers[1..], name, v)
  {
    var rest := headers[1..];
    if i :| 0 <= i < |headers| && headers[i] == (name, v) && forall j :: 0 <= j < i ==> headers[j].0 != name {
      assert rest[i - 1] == (name, v);
    }
    if i :| 0 <= i < |rest| && rest[i] == (name, v) && forall j :: 0 <= j < i ==> rest[j].0 != name {
      assert headers[i + 1] == (name, v);
      assert forall j :: 0 < j < i + 1 ==> headers[j] == rest[j - 1];
    }
  }

  lemma {:induction false} GetIgnoringCaseIff(headers: Headers, name: string)
    ensures forall v :: GetIgnoringCase(headers, name) == Some(v) <==> FirstButCase(headers, name, v)
  {
    if headers != [] {
      var rest := headers[1..];
      GetIgnoringCaseIff(rest, name);
      if Lower(headers[0].0) != Lower(name) {
        forall v ensures FirstButCase(headers, name, v) <==> FirstButCase(rest, name, v) {
          FirstButCaseLater(headers, name, v);
        }
      }
    }
  }

  lemma FirstButCaseLater(headers: Headers, name: string, v: string)
    requires headers != [] && Lower(headers[0].0) != Lower(name)
    ensures FirstButCase(headers, name, v) <==> FirstButCase(headers[1..], name, v)
  {
    var rest := headers[1..];
    if i :| 0 <= i < |headers| && headers[i].1 == v && Lower(headers[i].0) == Lower(name) &&
            forall j :: 0 <= j < i ==> Lower(headers[j].0) != Lower(name) {
      assert rest[i - 1] == headers[i];
    }
    if i :| 0 <= i < |rest| && rest[i].1 == v && Lower(rest[i].0) == Lower(name) &&
            forall j :: 0 <= j < i ==> Lower(rest[j].0) != Lower(name) {
      assert headers[i + 1] == rest[i];
      assert forall j :: 0 < j < i + 1 ==> headers[j] == rest[j - 1];
    }
  }

  /** The header a scheme reads: the override's name if there is one, else its own; a header of exactly that
    * name wins over any that differs in case, and the first of several counts. */
  lemma ReadHeaderIff(headers: Headers, own: string, headerOverride: string, value: string)
    ensures ReadHeader(headers, own, headerOverride) == Some(value) <==>
            var name := if headerOverride != "" then headerOverride else own;
            FirstExact(headers, name, value) || (!Named(headers, name) && FirstButCase(headers, name, value))
  {
    var name := if headerOverride != "" then headerOverride else own;
    GetIff(headers, name);
    GetIgnoringCaseIff(headers, name);
    if FirstExact(headers, name, value) {
      assert Named(headers, name);
    }
  }

  /** The text is the digest, but for the case of letters. */
  predicate IsDigest(text: string, digest: string) {
    |text| == |digest| && forall i :: 0 <= i < |text| ==> SameButCase(digest[i], text[i])
  }

  lemma SameDigestIff(digest: string, text: string)
    requires IsLowerHex(digest)
    ensures SameDigest(digest, text) <==> IsDigest(Strip(text), digest)
  {
    LowerHexIsHex(digest);
    PlainIsFixed(digest);
    LowerMerges(digest, Strip(text));
  }

  // ---------------------------------------------------------------------
  // Plain hex digest schemes
  // ---------------------------------------------------------------------

  /** The header text names an algorithm the scheme permits and gives a digest for it in hexadecimal; or,
    * where that is accepted, it is a bare digest for the preferred algorithm. */
  ghost predicate Gives(scheme: HexDigestScheme, raw: string, algorithm: string, digest: string)
    requires scheme.Valid()
  {
    && IsHex(digest) && algorithm in scheme.algorithms
    && ((exists name: string, rest: string ::
           Strip(raw) == name + "=" + rest && '=' !in name &&
           algorithm == Lower(Strip(name)) && digest == Strip(rest))
        || ('=' !in Strip(raw) && scheme.allowBare && algorithm == scheme.algorithms[0] && digest == Strip(raw)))
  }

  ghost predicate HeaderIs(headers: Headers, own: string, headerOverride: string, raw: string) {
    raw != "" && ReadHeader(headers, own, headerOverride) == Some(raw)
  }

  lemma GivesIff(scheme: HexDigestScheme, raw: string, algorithm: string, digest: string)
    requires scheme.Valid()
    ensures var (name, found, rest) := Partition(Strip(raw), '=');
            Gives(scheme, raw, algorithm, digest) <==>
            && IsHex(digest) && algorithm in scheme.algorithms
            && (if found then algorithm == Lower(Strip(name)) && digest == Strip(rest)
                else scheme.allowBare && algorithm == scheme.algorithms[0] && digest == Strip(raw))
  {
    var t := Strip(raw);
    var (name, found, rest) := Partition(t, '=');
    PartitionIff(t, '=', name, rest);
    if found {
      assert t == name + "=" + rest;
      forall n: string, r: string | t == n + "=" + r && '=' !in n ensures n == name && r == rest {
        PartitionIff(t, '=', n, r);
      }
    } else {
      forall n: string, r: string ensures t != n + "=" + r {
        assert (n + "=" + r)[|n|] == '=';
      }
    }
  }

  /** What a plain scheme answers, for any header: it is missing; or gives no digest in a permitted way; or
    * the digest it gives is, or is not, the mac of the body. */
  lemma HexDigestVerdict(scheme: HexDigestScheme, mac: Mac, secret: string, body: Bytes, headers: Headers,
                         headerOverride: string)
    requires scheme.Valid() && HexDigests(mac)
    ensures var verdict := scheme.Verify(mac, secret, body, headers, headerOverride).verdict;
            && (verdict == Missing <==> forall raw :: !HeaderIs(headers, scheme.header, headerOverride, raw))
            && (verdict == Ok <==>
                  exists raw, algorithm, digest ::
                    HeaderIs(headers, scheme.header, headerOverride, raw) && Gives(scheme, raw, algorithm, digest) &&
                    IsDigest(digest, mac(secret, body, algorithm)))
            && (verdict == Mismatch <==>
                  exists raw, algorithm, digest ::
                    HeaderIs(headers, scheme.header, headerOverride, raw) && Gives(scheme, raw, algorithm, digest) &&
                    !IsDigest(digest, mac(secret, body, algorithm)))
            && verdict != Stale
  {
    match ReadHeader(headers, scheme.header, headerOverride)
    case None =>
    case Some(raw) =>
      if raw != "" {
        assert HeaderIs(headers, scheme.header, headerOverride, raw);
        HexDigestOn(scheme, mac, secret, body, headers, headerOverride, raw);
      }
  }

  lemma HexDigestOn(scheme: HexDigestScheme, mac: Mac, secret: string, body: Bytes, headers: Headers,
                    headerOverride: string, raw: string)
    requires scheme.Valid() && HexDigests(mac) && HeaderIs(headers, scheme.header, headerOverride, raw)
    ensures var verdict := scheme.Verify(mac, secret, body, headers, headerOverride).verdict;
            && (verdict == Ok <==>
                  exists algorithm, digest ::
                    Gives(scheme, raw, algorithm, digest) && IsDigest(digest, mac(secret, body, algorithm)))
            && (verdict == Mismatch <==>
                  exists algorithm, digest ::
                    Gives(scheme, raw, algorithm, digest) && !IsDigest(digest, mac(secret, body, algorithm)))
            && verdict != Stale && verdict != Missing
  {
    var t := Strip(raw);
    var (name, found, rest) := Partition(t, '=');
    var algorithm := if found then Lower(Strip(name)) else scheme.algorithms[0];
    var digest := if found then Strip(rest) else t;
    GivesIff(scheme, raw, algorithm, digest);
    forall a, d | Gives(scheme, raw, a, d) ensures a == algorithm && d == digest {
      GivesIff(scheme, raw, a, d);
    }
    StripIdem(raw);
    StripIdem(rest);
    SameDigestIff(mac(secret, body, algorithm), digest);
  }

  /** No forgery: a delivery whose digest is not the mac of its body is refused. */
  lemma HexDigestRefusesForgeries(scheme: HexDigestScheme, mac: Mac, secret: string, body: Bytes, headers: Headers,
                                  headerOverride: string)
    requires scheme.Valid() && HexDigests(mac)
    requires forall raw, algorithm, digest ::
               HeaderIs(headers, scheme.header, headerOverride, raw) && Gives(scheme, raw, algorithm, digest) ==>
                 !IsDigest(digest, mac(secret, body, algorithm))
    ensures scheme.Verify(mac, secret, body, headers, headerOverride).verdict in {Missing, Malformed, Mismatch}
  {
    HexDigestVerdict(scheme, mac, secret, body, headers, headerOverride);
  }

  // ---------------------------------------------------------------------
  // The timestamped scheme
  // ---------------------------------------------------------------------

  /** The part reads key=value, with white space anywhere around the two. */
  ghost predicate Reads(part: string, key: string, value: string) {
    exists k: string, v: string :: Strip(part) == k + "=" + v && '=' !in k && Strip(k) == key && Strip(v) == value
  }

  lemma ReadsIff(part: string, value: string)
    ensures Reads(part, "t", value) <==> Classify(part) == Timestamp(value)
    ensures Reads(part, "v1", value) <==> Classify(part) == Signature(value)
  {
    var t := Strip(part);
    var (key, found, rest) := Partition(t, '=');
    PartitionIff(t, '=', key, rest);
    if found {
      assert t == key + "=" + rest;
    }
    forall k: string, v: string | t == k + "=" + v && '=' !in k ensures found && k == key && v == rest {
      PartitionIff(t, '=', k, v);
      assert (k + "=" + v)[|k|] == '=';
    }
  }

  /** The first t part of the header has this text. */
  ghost predicate Stamped(raw: string, text: string) {
    var parts := Split(raw, ',');
    exists i :: 0 <= i < |parts| && Reads(parts[i], "t", text) &&
                forall j, other :: 0 <= j < i ==> !Reads(parts[j], "t", other)
  }

  /** Some v1 part of the header has this value. */
  ghost predicate Offers(raw: string, value: string) {
    var parts := Split(raw, ',');
    exists i :: 0 <= i < |parts| && Reads(parts[i], "v1", value)
  }

  lemma {:induction false} CollectsFirst(parts: seq<Part>, text: string)
    ensures Collect(parts).0 == Some(text) <==>
            exists i :: 0 <= i < |parts| && parts[i] == Timestamp(text) &&
                        forall j :: 0 <= j < i ==> !parts[j].Timestamp?
    ensures Collect(parts).0 == None <==> forall j :: 0 <= j < |parts| ==> !parts[j].Timestamp?
  {
    if parts != [] {
      var init, last := parts[..|parts| - 1], parts[|parts| - 1];
      CollectsFirst(init, text);
      if i :| 0 <= i < |init| && init[i] == Timestamp(text) && forall j :: 0 <= j < i ==> !init[j].Timestamp? {
        assert parts[i] == Timestamp(text);
      }
      if i :| 0 <= i < |parts| && parts[i] == Timestamp(text) && forall j :: 0 <= j < i ==> !parts[j].Timestamp? {
        assert i < |init| ==> init[i] == Timestamp(text);
      }
    }
  }

  lemma StampedIff(raw: string, text: string)
    ensures ParseHeader(raw).0 == Some(text) <==> Stamped(raw, text)
  {
    var parts := Split(raw, ',');
    var all := ClassifyAll(parts);
    CollectsFirst(all, text);
    forall i | 0 <= i < |parts|
      ensures Reads(parts[i], "t", text) <==> all[i] == Timestamp(text)
      ensures (exists other :: Reads(parts[i], "t", other)) <==> all[i].Timestamp?
    {
      ReadsIff(parts[i], text);
      if all[i].Timestamp? {
        ReadsIff(parts[i], all[i].value);
      }
      if other :| Reads(parts[i], "t", other) {
        ReadsIff(parts[i], other);
      }
    }
  }

  lemma OffersIff(raw: string, value: string)
    ensures value in ParseHeader(raw).1 <==> Offers(raw, value)
  {
    var parts := Split(raw, ',');
    var all := ClassifyAll(parts);
    CollectedSignatures(all);
    forall i | 0 <= i < |parts| ensures Reads(parts[i], "v1", value) <==> all[i] == Signature(value) {
      ReadsIff(parts[i], value);
    }
  }

  /** The header is well formed and says when it was issued. */
  ghost predicate IssuedAt(raw: string, n: int) {
    && (exists text :: Stamped(raw, text) && ParseInt(text, 10) == Some(n))
    && (exists value :: Offers(raw, value))
    && (forall value :: Offers(raw, value) ==> IsHex(value))
  }

  predicate OnTime(n: int, tolerance: int, now: real) {
    tolerance <= 0 || (n as real - tolerance as real <= now <= n as real + tolerance as real)
  }

  /** Some v1 value is the mac of the time, a dot and the body. */
  ghost predicate Authentic(scheme: StripeScheme, mac: Mac, secret: string, body: Bytes, raw: string, n: int) {
    exists value :: Offers(raw, value) &&
                    IsDigest(value, mac(secret, Encode(IntText(n) + ".") + body, scheme.algorithm))
  }

  /** A v1 value is stripped when it is read. */
  lemma OfferedIsStripped(raw: string, value: string)
    requires Offers(raw, value)
    ensures Strip(value) == value
  {
    var parts := Split(raw, ',');
    var i :| 0 <= i < |parts| && Reads(parts[i], "v1", value);
    var k: string, v: string :| Strip(parts[i]) == k + "=" + v && '=' !in k && Strip(k) == "v1" && Strip(v) == value;
    StripIdem(v);
  }

  lemma MatchIff(scheme: StripeScheme, mac: Mac, secret: string, body: Bytes, raw: string, n: int)
    requires HexDigests(mac)
    ensures var expected, signatures := mac(secret, scheme.Payload(n, body), scheme.algorithm), ParseHeader(raw).1;
            (exists i :: 0 <= i < |signatures| && SameDigest(expected, signatures[i])) <==>
            Authentic(scheme, mac, secret, body, raw, n)
  {
    var expected, signatures := mac(secret, scheme.Payload(n, body), scheme.algorithm), ParseHeader(raw).1;
    assert scheme.Payload(n, body) == Encode(IntText(n) + ".") + body;
    if i :| 0 <= i < |signatures| && SameDigest(expected, signatures[i]) {
      OffersIff(raw, signatures[i]);
      OfferedIsStripped(raw, signatures[i]);
      SameDigestIff(expected, signatures[i]);
    }
    if value :| Offers(raw, value) && IsDigest(value, expected) {
      OffersIff(raw, value);
      OfferedIsStripped(raw, value);
      SameDigestIff(expected, value);
      var i :| 0 <= i < |signatures| && signatures[i] == value;
    }
  }

  /** The same, of what the scheme's loop collects. */
  ghost predicate ParsedAt(raw: string, n: int) {
    var (timestamp, signatures) := ParseHeader(raw);
    && timestamp.Some? && signatures != [] && ParseInt(timestamp.value, 10) == Some(n)
    && forall i :: 0 <= i < |signatures| ==> IsHex(signatures[i])
  }

  lemma IssuedIff(raw: string, n: int)
    ensures IssuedAt(raw, n) <==> ParsedAt(raw, n)
  {
    var (timestamp, signatures) := ParseHeader(raw);
    forall text ensures timestamp == Some(text) <==> Stamped(raw, text) {
      StampedIff(raw, text);
    }
    forall value ensures value in signatures <==> Offers(raw, value) {
      OffersIff(raw, value);
    }
    if signatures != [] {
      assert signatures[0] in signatures;
    }
    if forall value :: Offers(raw, value) ==> IsHex(value) {
      forall i | 0 <= i < |signatures| ensures IsHex(signatures[i]) {
        assert signatures[i] in signatures;
      }
    }
  }

  /** The verdict on a well-formed header issued at n. */
  ghost function Judged(scheme: StripeScheme, mac: Mac, secret: string, body: Bytes, raw: string, n: int,
                        tolerance: int, now: real): Check
  {
    if !OnTime(n, tolerance, now) then Check(Stale, if n as real > now then "future" else "expired")
    else if Authentic(scheme, mac, secret, body, raw, n) then Check(Ok, "")
    else Check(Mismatch, "")
  }

  lemma ParsedIsJudged(scheme: StripeScheme, mac: Mac, secret: string, body: Bytes, headers: Headers,
                       headerOverride: string, raw: string, n: int, tolerance: int, now: real)
    requires HexDigests(mac) && HeaderIs(headers, scheme.header, headerOverride, raw) && ParsedAt(raw, n)
    ensures scheme.Verify(mac, secret, body, headers, headerOverride, tolerance, now) ==
            Judged(scheme, mac, secret, body, raw, n, tolerance, now)
  {
    MatchIff(scheme, mac, secret, body, raw, n);
  }

  lemma UnparsedIsMalformed(scheme: StripeScheme, mac: Mac, secret: string, body: Bytes, headers: Headers,
                            headerOverride: string, raw: string, tolerance: int, now: real)
    requires HeaderIs(headers, scheme.header, headerOverride, raw) && forall n :: !ParsedAt(raw, n)
    ensures scheme.Verify(mac, secret, body, headers, headerOverride, tolerance, now).verdict == Malformed
  {
    var (timestamp, signatures) := ParseHeader(raw);
    if timestamp.Some? && ParseInt(timestamp.value, 10).Some? {
      assert !ParsedAt(raw, ParseInt(timestamp.value, 10).value);
    }
  }

  /** What the scheme answers on a header text, issued at n if it is well formed. */
  lemma StripeOn(scheme: StripeScheme, mac: Mac, secret: string, body: Bytes, headers: Headers,
                 headerOverride: string, raw: string, tolerance: int, now: real)
    requires HexDigests(mac) && HeaderIs(headers, scheme.header, headerOverride, raw)
    ensures var check := scheme.Verify(mac, secret, body, headers, headerOverride, tolerance, now);
            && (check.verdict == Malformed <==> forall n :: !IssuedAt(raw, n))
            && (forall n :: IssuedAt(raw, n) ==>
                  check == Judged(scheme, mac, secret, body, raw, n, tolerance, now))
            && check.verdict != Missing
  {
    forall n ensures IssuedAt(raw, n) <==> ParsedAt(raw, n) {
      IssuedIff(raw, n);
    }
    forall n | ParsedAt(raw, n)
      ensures scheme.Verify(mac, secret, body, headers, headerOverride, tolerance, now) ==
              Judged(scheme, mac, secret, body, raw, n, tolerance, now)
    {
      ParsedIsJudged(scheme, mac, secret, body, headers, headerOverride, raw, n, tolerance, now);
    }
    if forall n :: !ParsedAt(raw, n) {
      UnparsedIsMalformed(scheme, mac, secret, body, headers, headerOverride, raw, tolerance, now);
    }
  }

  /** What is signed tells the time of issue and the body apart: no two pairs of them give one message. */
  lemma PayloadInjective(scheme: StripeScheme, n: int, a: Bytes, m: int, b: Bytes)
    requires scheme.Payload(n, a) == scheme.Payload(m, b)
    ensures n == m && a == b
  {
    var p, q := scheme.Payload(n, a), scheme.Payload(m, b);
    var s, t := IntText(n), IntText(m);
    NoDotIn(n);
    NoDotIn(m);
    assert p == Encode(s + ".") + a && q == Encode(t + ".") + b;
    assert p[|s|] == '.' as int && q[|t|] == '.' as int;
    assert forall i :: 0 <= i < |s| ==> p[i] == s[i] as int;
    assert forall i :: 0 <= i < |t| ==> q[i] == t[i] as int;
    assert |s| == |t|;
    assert forall i :: 0 <= i < |s| ==> s[i] as int == t[i] as int;
    assert s == t;
    IntTextParses(n);
    IntTextParses(m);
    assert p[|s| + 1..] == a && q[|t| + 1..] == b;
  }

  lemma NoDotIn(n: int)
    ensures forall i :: 0 <= i < |IntText(n)| ==> IntText(n)[i] != '.'
  {
    var digits := NatText(if n < 0 then 0 - n else n);
    assert forall i :: 0 <= i < |digits| ==> '0' <= digits[i] <= '9';
  }

  /** Soundness and completeness: over all headers a delivery is accepted if and only if its header is well
    * formed, on time, and has a v1 value that is the mac of its time and this very body. */
  lemma StripeAcceptsIff(scheme: StripeScheme, mac: Mac, secret: string, body: Bytes, headers: Headers,
                         headerOverride: string, tolerance: int, now: real)
    requires HexDigests(mac)
    ensures scheme.Verify(mac, secret, body, headers, headerOverride, tolerance, now).verdict == Ok <==>
            exists raw, n :: HeaderIs(headers, scheme.header, headerOverride, raw) && IssuedAt(raw, n) &&
                             OnTime(n, tolerance, now) && Authentic(scheme, mac, secret, body, raw, n)
  {
    match ReadHeader(headers, scheme.header, headerOverride)
    case None =>
    case Some(raw) =>
      if raw != "" {
        StripeOn(scheme, mac, secret, body, headers, headerOverride, raw, tolerance, now);
      }
  }

  /** And the refusals: missing exactly without a header, malformed exactly if the header is not well formed,
    * stale exactly if it is but not on time, and a mismatch exactly if no v1 value is the mac. */
  lemma StripeRefusesIff(scheme: StripeScheme, mac: Mac, secret: string, body: Bytes, headers: Headers,
                         headerOverride: string, tolerance: int, now: real)
    requires HexDigests(mac)
    ensures var verdict := scheme.Verify(mac, secret, body, headers, headerOverride, tolerance, now).verdict;
            && (verdict == Missing <==> forall raw :: !HeaderIs(headers, scheme.header, headerOverride, raw))
            && (verdict == Malformed <==>
                  exists raw :: HeaderIs(headers, scheme.header, headerOverride, raw) && forall n :: !IssuedAt(raw, n))
            && (verdict == Stale <==>
                  exists raw, n :: HeaderIs(headers, scheme.header, headerOverride, raw) && IssuedAt(raw, n) &&
                                   !OnTime(n, tolerance, now))
            && (verdict == Mismatch <==>
                  exists raw, n :: HeaderIs(headers, scheme.header, headerOverride, raw) && IssuedAt(raw, n) &&
                                   OnTime(n, tolerance, now) && !Authentic(scheme, mac, secret, body, raw, n))
  {
    match ReadHeader(headers, scheme.header, headerOverride)
    case None =>
    case Some(raw) =>
      if raw != "" {
        assert HeaderIs(headers, scheme.header, headerOverride, raw);
        StripeOn(scheme, mac, secret, body, headers, headerOverride, raw, tolerance, now);
      }
  }
}
