/** The webhook signature schemes of src/navigator_eventbus/webhook_signatures.py.
  *
  * HMAC (section 2 of RFC 2104) is a parameter: any function whose results are non-empty
  * lower-case hexadecimal.
  */
module Signatures {
  import opened Collections
  import opened Text

  type Bytes = seq<int>

  /** (secret, message, algorithm) to hex digest. */
  type Mac = (string, Bytes, string) -> string

  ghost predicate HexDigests(mac: Mac) {
    forall secret, message, algorithm :: IsLowerHex(mac(secret, message, algorithm))
  }

  datatype Verdict = Ok | Missing | Malformed | Mismatch | Stale

  datatype Check = Check(verdict: Verdict, detail: string)

  type Headers = seq<(string, string)>

  const ALGORITHMS: seq<string> := ["sha1", "sha256", "sha512"]

  /** The UTF-8 bytes of ASCII text. */
  function Encode(s: string): (r: Bytes)
    ensures |r| == |s| && forall i :: 0 <= i < |s| ==> r[i] == s[i] as int
  {
    seq(|s|, i requires 0 <= i < |s| => s[i] as int)
  }

  /** The exact name first, else the first header whose name differs only in case. */
  function Get(headers: Headers, name: string): Option<string> {
    if headers == [] then None
    else if headers[0].0 == name then Some(headers[0].1)
    else Get(headers[1..], name)
  }

  function GetIgnoringCase(headers: Headers, name: string): Option<string> {
    if headers == [] then None
    else if Lower(headers[0].0) == Lower(name) then Some(headers[0].1)
    else GetIgnoringCase(headers[1..], name)
  }

  /** An empty override counts as none. */
  function ReadHeader(headers: Headers, own: string, headerOverride: string): Option<string> {
    var name := if headerOverride != "" then headerOverride else own;
    match Get(headers, name)
    case Some(v) => Some(v)
    case None => GetIgnoringCase(headers, name)
  }

  /** The case-insensitive comparison of two digests. */
  predicate SameDigest(a: string, b: string) {
    Lower(Strip(a)) == Lower(Strip(b))
  }

  // ---------------------------------------------------------------------
  // Plain hex digest schemes
  // ---------------------------------------------------------------------

  datatype HexDigestScheme = HexDigestScheme(header: string, algorithms: seq<string>, allowBare: bool, emitPrefix: bool)
  {
    /** What the constructor insists on. */
    predicate Valid() {
      algorithms != [] && forall i :: 0 <= i < |algorithms| ==> algorithms[i] in ALGORITHMS
    }

    function VerifyDigest(mac: Mac, secret: string, body: Bytes, algorithm: string, digest: string): Check {
      if !IsHex(digest) then Check(Malformed, "not_hex")
      else if SameDigest(mac(secret, body, algorithm), digest) then Check(Ok, "")
      else Check(Mismatch, "")
    }

    function Verify(mac: Mac, secret: string, body: Bytes, headers: Headers, headerOverride: string): Check
      requires Valid()
    {
      match ReadHeader(headers, header, headerOverride)
      case None => Check(Missing, "")
      case Some(value) =>
        if value == "" then Check(Missing, "")
        else
          var raw := Strip(value);
          var (name, found, rest) := Partition(raw, '=');
          if found then
            var algorithm := Lower(Strip(name));
            if algorithm !in algorithms then Check(Malformed, "unsupported_alg")
            else VerifyDigest(mac, secret, body, algorithm, Strip(rest))
          else if allowBare then VerifyDigest(mac, secret, body, algorithms[0], Strip(raw))
          else Check(Malformed, "missing_alg_prefix")
    }

    function Sign(mac: Mac, secret: string, body: Bytes): Headers
      requires Valid()
    {
      var digest := mac(secret, body, algorithms[0]);
      [(header, if emitPrefix then algorithms[0] + "=" + digest else digest)]
    }
  }

  lemma AlgorithmNames(a: string)
    requires a in ALGORITHMS
    ensures a != "" && IsPlain(a)
  {
  }

  lemma OwnDigestVerifies(scheme: HexDigestScheme, mac: Mac, secret: string, body: Bytes, algorithm: string)
    requires HexDigests(mac)
    ensures scheme.VerifyDigest(mac, secret, body, algorithm, mac(secret, body, algorithm)).verdict == Ok
  {
    LowerHexIsHex(mac(secret, body, algorithm));
  }

  /** Text of the form name=digest splits there and survives stripping. */
  lemma PrefixedText(a: string, digest: string, raw: string)
    requires a != "" && IsPlain(a) && digest != "" && IsPlain(digest) && raw == a + ['='] + digest
    ensures raw != "" && Strip(raw) == raw && Partition(raw, '=') == (a, true, digest)
  {
    PlainIsFixed(a);
    assert '=' !in a;
    PartitionAt(a, '=', digest);
    assert raw[0] == a[0] && raw[|raw| - 1] == digest[|digest| - 1];
    StripFixed(raw);
  }

  lemma PrefixedDigest(a: string, digest: string)
    requires a in ALGORITHMS && IsLowerHex(digest)
    ensures var raw := a + "=" + digest;
            raw != "" && Strip(raw) == raw && Partition(raw, '=') == (a, true, digest)
    ensures Lower(Strip(a)) == a && Strip(digest) == digest
  {
    AlgorithmNames(a);
    PlainIsFixed(a);
    LowerHexIsHex(digest);
    PlainIsFixed(digest);
    PrefixedText(a, digest, a + "=" + digest);
  }

  lemma BareDigest(digest: string)
    requires IsLowerHex(digest)
    ensures digest != "" && Strip(digest) == digest && Partition(digest, '=') == (digest, false, "")
  {
    LowerHexIsHex(digest);
    PlainIsFixed(digest);
    PartitionNone(digest, '=');
  }

  /** A plain scheme accepts its own signature exactly when it emits the prefix or accepts bare
    * digests; with neither it calls its own output malformed. */
  lemma HexDigestRoundTrip(scheme: HexDigestScheme, mac: Mac, secret: string, body: Bytes)
    requires scheme.Valid() && HexDigests(mac)
    ensures var check := scheme.Verify(mac, secret, body, scheme.Sign(mac, secret, body), "");
            check == if scheme.emitPrefix || scheme.allowBare then Check(Ok, "")
                     else Check(Malformed, "missing_alg_prefix")
    ensures var a := scheme.algorithms[0];
            scheme.Sign(mac, secret, body) ==
            [(scheme.header, (if scheme.emitPrefix then a + "=" else "") + mac(secret, body, a))]
  {
    SignsWithPreferred(scheme, mac, secret, body);
    if scheme.emitPrefix {
      PrefixedVerifies(scheme, mac, secret, body);
    } else {
      BareVerifies(scheme, mac, secret, body);
    }
  }

  lemma SignsWithPreferred(scheme: HexDigestScheme, mac: Mac, secret: string, body: Bytes)
    requires scheme.Valid()
    ensures var a := scheme.algorithms[0];
            scheme.Sign(mac, secret, body) ==
            [(scheme.header, (if scheme.emitPrefix then a + "=" else "") + mac(secret, body, a))]
  {
    assert "" + mac(secret, body, scheme.algorithms[0]) == mac(secret, body, scheme.algorithms[0]);
  }

  lemma PrefixedVerifies(scheme: HexDigestScheme, mac: Mac, secret: string, body: Bytes)
    requires scheme.Valid() && HexDigests(mac)
    ensures var a := scheme.algorithms[0];
            scheme.Verify(mac, secret, body, [(scheme.header, a + "=" + mac(secret, body, a))], "") == Check(Ok, "")
  {
    var a := scheme.algorithms[0];
    OwnDigestVerifies(scheme, mac, secret, body, a);
    PrefixedDigest(a, mac(secret, body, a));
  }

  lemma BareVerifies(scheme: HexDigestScheme, mac: Mac, secret: string, body: Bytes)
    requires scheme.Valid() && HexDigests(mac)
    ensures var digest := mac(secret, body, scheme.algorithms[0]);
            scheme.Verify(mac, secret, body, [(scheme.header, digest)], "") ==
            if scheme.allowBare then Check(Ok, "") else Check(Malformed, "missing_alg_prefix")
  {
    var digest := mac(secret, body, scheme.algorithms[0]);
    OwnDigestVerifies(scheme, mac, secret, body, scheme.algorithms[0]);
    BareDigest(digest);
  }

  // ---------------------------------------------------------------------
  // The timestamped scheme
  // ---------------------------------------------------------------------

  /** What a comma-separated part of the header is. */
  datatype Part = Timestamp(value: string) | Signature(value: string) | Other

  function Classify(part: string): Part {
    var (key, found, value) := Partition(Strip(part), '=');
    if !found then Other
    else if Strip(key) == "t" then Timestamp(Strip(value))
    else if Strip(key) == "v1" then Signature(Strip(value))
    else Other
  }

  function ClassifyAll(parts: seq<string>): (r: seq<Part>)
    ensures |r| == |parts| && forall i :: 0 <= i < |r| ==> r[i] == Classify(parts[i])
  {
    seq(|parts|, i requires 0 <= i < |parts| => Classify(parts[i]))
  }

  /** The first timestamp and every v1 value, in order. */
  function Collect(parts: seq<Part>): (Option<string>, seq<string>) {
    if parts == [] then (None, [])
    else
      var (timestamp, signatures) := Collect(parts[..|parts| - 1]);
      match parts[|parts| - 1]
      case Timestamp(value) => (if timestamp.None? then Some(value) else timestamp, signatures)
      case Signature(value) => (timestamp, signatures + [value])
      case Other => (timestamp, signatures)
  }

  function ParseHeader(raw: string): (Option<string>, seq<string>) {
    Collect(ClassifyAll(Split(raw, ',')))
  }

  method Parse(raw: string) returns (timestamp: Option<string>, signatures: seq<string>)
    ensures (timestamp, signatures) == ParseHeader(raw)
  {
    timestamp, signatures := None, [];
    var parts := Split(raw, ',');
    ghost var all := ClassifyAll(parts);
    for i := 0 to |parts|
      invariant (timestamp, signatures) == Collect(all[..i])
    {
      assert all[..i + 1][..i] == all[..i];
      var (key, found, value) := Partition(Strip(parts[i]), '=');
      if !found {
        continue;
      }
      if Strip(key) == "t" && timestamp.None? {
        timestamp := Some(Strip(value));
      } else if Strip(key) == "v1" {
        signatures := signatures + [Strip(value)];
      }
    }
    assert all[..|parts|] == all;
  }

  /** int(x): toward zero. */
  function Trunc(x: real): int {
    if x >= 0.0 then x.Floor else 0 - (0.0 - x).Floor
  }

  /** The nearest integer on the side of zero. */
  lemma TruncTowardZero(x: real)
    ensures x >= 0.0 ==> Trunc(x) as real <= x < Trunc(x) as real + 1.0 && Trunc(x) >= 0
    ensures x <= 0.0 ==> Trunc(x) as real - 1.0 < x <= Trunc(x) as real && Trunc(x) <= 0
  {
  }

  predicate Fresh(tolerance: int, current: real, issuedAt: int) {
    tolerance <= 0 || (-(tolerance as real) <= current - issuedAt as real <= tolerance as real)
  }

  datatype StripeScheme = StripeScheme(header: string, algorithm: string)
  {
    function Payload(issuedAt: int, body: Bytes): Bytes {
      Encode(IntText(issuedAt) + ".") + body
    }

    function VerifySignatures(mac: Mac, secret: string, body: Bytes, timestamp: string, signatures: seq<string>,
                              tolerance: int, now: real): Check
    {
      match ParseInt(timestamp, 10)
      case None => Check(Malformed, "bad_timestamp")
      case Some(issuedAt) =>
        if exists i :: 0 <= i < |signatures| && !IsHex(signatures[i]) then Check(Malformed, "not_hex")
        else if !Fresh(tolerance, now, issuedAt) then
          Check(Stale, if issuedAt as real > now then "future" else "expired")
        else
          var expected := mac(secret, Payload(issuedAt, body), algorithm);
          if exists i :: 0 <= i < |signatures| && SameDigest(expected, signatures[i]) then Check(Ok, "")
          else Check(Mismatch, "")
    }

    function Verify(mac: Mac, secret: string, body: Bytes, headers: Headers, headerOverride: string,
                    tolerance: int, now: real): Check
    {
      match ReadHeader(headers, header, headerOverride)
      case None => Check(Missing, "")
      case Some(raw) =>
        if raw == "" then Check(Missing, "")
        else
          var (timestamp, signatures) := ParseHeader(raw);
          if timestamp.None? then Check(Malformed, "missing_timestamp")
          else if signatures == [] then Check(Malformed, "missing_v1")
          else VerifySignatures(mac, secret, body, timestamp.value, signatures, tolerance, now)
    }

    function Sign(mac: Mac, secret: string, body: Bytes, now: real): Headers {
      var issuedAt := Trunc(now);
      var digest := mac(secret, Payload(issuedAt, body), algorithm);
      [(header, "t=" + IntText(issuedAt) + ",v1=" + digest)]
    }
  }

  lemma {:induction false} CollectedTimestamp(parts: seq<Part>, text: string)
    requires forall p :: p in parts && p.Timestamp? ==> p.value == text
    ensures Collect(parts).0 == if Timestamp(text) in parts then Some(text) else None
  {
    if parts != [] {
      CollectedTimestamp(parts[..|parts| - 1], text);
      assert parts == parts[..|parts| - 1] + [parts[|parts| - 1]];
    }
  }

  lemma {:induction false} CollectedSignatures(parts: seq<Part>)
    ensures forall s :: s in Collect(parts).1 <==> Signature(s) in parts
  {
    if parts != [] {
      CollectedSignatures(parts[..|parts| - 1]);
      assert parts == parts[..|parts| - 1] + [parts[|parts| - 1]];
    }
  }

  /** The parts of a header as the scheme signs it, with any number of further v1 parts holding
    * hexadecimal text, in any order. */
  ghost predicate Carries(parts: seq<Part>, issuedAt: int, digest: string) {
    && Timestamp(IntText(issuedAt)) in parts
    && Signature(digest) in parts
    && (forall p :: p in parts && p.Timestamp? ==> p.value == IntText(issuedAt))
    && (forall p :: p in parts && p.Signature? ==> IsHex(p.value))
  }

  lemma CarriedIsVerified(scheme: StripeScheme, mac: Mac, secret: string, body: Bytes, parts: seq<Part>,
                          issuedAt: int, tolerance: int, now: real)
    requires Carries(parts, issuedAt, mac(secret, scheme.Payload(issuedAt, body), scheme.algorithm))
    ensures var (timestamp, signatures) := Collect(parts);
            && timestamp == Some(IntText(issuedAt)) && signatures != []
            && scheme.VerifySignatures(mac, secret, body, IntText(issuedAt), signatures, tolerance, now) ==
               Expected(issuedAt, tolerance, now)
  {
    var digest := mac(secret, scheme.Payload(issuedAt, body), scheme.algorithm);
    CollectedTimestamp(parts, IntText(issuedAt));
    CollectedSignatures(parts);
    IntTextParses(issuedAt);
    var signatures := Collect(parts).1;
    assert digest in signatures;
    forall i | 0 <= i < |signatures| ensures IsHex(signatures[i]) {
      assert Signature(signatures[i]) in parts;
    }
    var k :| 0 <= k < |signatures| && signatures[k] == digest;
    assert SameDigest(digest, signatures[k]);
  }

  /** The verdict on an authentic delivery: it only depends on the clock. */
  function Expected(issuedAt: int, tolerance: int, now: real): Check {
    if Fresh(tolerance, now, issuedAt) then Check(Ok, "")
    else Check(Stale, if issuedAt as real > now then "future" else "expired")
  }

  /** The two parts the scheme signs with. */
  function SignedParts(issuedAt: int, digest: string): seq<string> {
    ["t=" + IntText(issuedAt), "v1=" + digest]
  }

  lemma PlainField(key: string, value: string)
    requires key != "" && IsPlain(key) && value != "" && !IsSpace(value[0]) && !IsSpace(value[|value| - 1])
    requires ',' !in value
    ensures Partition(Strip(key + "=" + value), '=') == (key, true, value)
    ensures Strip(key) == key && Strip(value) == value && ',' !in key + "=" + value
  {
    var s := key + ['='] + value;
    assert s == key + "=" + value;
    assert s[0] == key[0] && s[|s| - 1] == value[|value| - 1];
    StripFixed(s);
    StripFixed(value);
    PlainIsFixed(key);
    assert '=' !in key;
    PartitionAt(key, '=', value);
  }

  lemma TimestampClassified(issuedAt: int)
    ensures Classify("t=" + IntText(issuedAt)) == Timestamp(IntText(issuedAt)) && ',' !in "t=" + IntText(issuedAt)
  {
    IntTextShape(issuedAt);
    PlainField("t", IntText(issuedAt));
    assert "t" + "=" == "t=";
  }

  lemma SignatureClassified(digest: string)
    requires IsLowerHex(digest)
    ensures Classify("v1=" + digest) == Signature(digest) && ',' !in "v1=" + digest
  {
    LowerHexIsHex(digest);
    PlainField("v1", digest);
    assert "v1" + "=" == "v1=";
  }

  lemma SignedPartsClassified(issuedAt: int, digest: string)
    requires IsLowerHex(digest)
    ensures Classify("t=" + IntText(issuedAt)) == Timestamp(IntText(issuedAt)) && ',' !in "t=" + IntText(issuedAt)
    ensures Classify("v1=" + digest) == Signature(digest) && ',' !in "v1=" + digest
  {
    TimestampClassified(issuedAt);
    SignatureClassified(digest);
  }

  /** A further part a rotating sender may add: a v1 value in hexadecimal. */
  predicate IsExtra(part: string) {
    ',' !in part && Classify(part).Signature? && IsHex(Classify(part).value)
  }

  /** Stripping a v1 part only trims the end of its value. */
  lemma StripV1(h: string)
    requires StripRight(h) != ""
    ensures Strip("v1=" + h) == "v1" + ['='] + StripRight(h)
  {
    StripRightV1(h);
    var s := "v1=" + h;
    assert s[0] == 'v' && StripLeft(s) == s;
  }

  lemma StripRightV1(h: string)
    requires StripRight(h) != ""
    ensures StripRight("v1=" + h) == "v1" + ['='] + StripRight(h)
  {
    StripRightCons('=', h);
    StripRightCons('1', ['='] + h);
    StripRightCons('v', ['1'] + (['='] + h));
    assert "v1=" + h == ['v'] + (['1'] + (['='] + h));
    assert ['v'] + (['1'] + (['='] + StripRight(h))) == "v1" + ['='] + StripRight(h);
  }

  lemma HexStripped(h: string)
    requires IsHex(h)
    ensures StripRight(h) != "" && IsHex(Strip(h)) && Strip(StripRight(h)) == Strip(h)
  {
    StripIdem(h);
    StripOfStripRight(h);
  }

  /** Any text that reads as hexadecimal may be appended as a v1 part. */
  lemma HexPartIsExtra(h: string)
    requires IsHex(h)
    ensures IsExtra("v1=" + h)
  {
    HexStripped(h);
    StripV1(h);
    PartitionAt("v1", '=', StripRight(h));
    PlainIsFixed("v1");
    HexHasNoComma(h);
  }

  lemma ReorderedMembers(parts: seq<string>, extras: seq<string>, t: string, v: string)
    requires multiset(parts) == multiset([t, v]) + multiset(extras)
    ensures t in parts && v in parts
    ensures forall p :: p in parts ==> p == t || p == v || p in extras
  {
    assert [t, v][0] == t && [t, v][1] == v;
    assert t in multiset(parts) && v in multiset(parts);
    forall p | p in parts ensures p == t || p == v || p in extras {
      assert p in multiset(parts);
    }
  }

  /** A part that does not disturb verification. */
  predicate IsHarmless(part: string, issuedAt: int) {
    && ',' !in part
    && match Classify(part)
       case Timestamp(value) => value == IntText(issuedAt)
       case Signature(value) => IsHex(value)
       case Other => true
  }

  lemma PartIsHarmless(part: string, issuedAt: int, digest: string)
    requires IsLowerHex(digest)
    requires part == "t=" + IntText(issuedAt) || part == "v1=" + digest || IsExtra(part)
    ensures IsHarmless(part, issuedAt)
  {
    SignedPartsClassified(issuedAt, digest);
    LowerHexIsHex(digest);
  }

  lemma HarmlessPartsCarry(parts: seq<string>, issuedAt: int, digest: string, t: string, v: string)
    requires forall i :: 0 <= i < |parts| ==> IsHarmless(parts[i], issuedAt)
    requires t in parts && Classify(t) == Timestamp(IntText(issuedAt))
    requires v in parts && Classify(v) == Signature(digest)
    ensures Carries(ClassifyAll(parts), issuedAt, digest)
  {
    var all := ClassifyAll(parts);
    var i :| 0 <= i < |parts| && parts[i] == t;
    var j :| 0 <= j < |parts| && parts[j] == v;
    assert all[i] == Timestamp(IntText(issuedAt)) && all[j] == Signature(digest);
    forall p | p in all ensures p.Timestamp? ==> p.value == IntText(issuedAt)
                        ensures p.Signature? ==> IsHex(p.value)
    {
      var k :| 0 <= k < |all| && all[k] == p;
      assert IsHarmless(parts[k], issuedAt);
    }
  }

  lemma ReorderedPartsCarry(parts: seq<string>, extras: seq<string>, issuedAt: int, digest: string)
    requires IsLowerHex(digest)
    requires forall i :: 0 <= i < |extras| ==> IsExtra(extras[i])
    requires multiset(parts) == multiset(SignedParts(issuedAt, digest)) + multiset(extras)
    ensures parts != [] && Join(parts, ',') != ""
    ensures forall i :: 0 <= i < |parts| ==> ',' !in parts[i]
    ensures Carries(ClassifyAll(parts), issuedAt, digest)
  {
    var t, v := "t=" + IntText(issuedAt), "v1=" + digest;
    ReorderedMembers(parts, extras, t, v);
    forall i | 0 <= i < |parts| ensures IsHarmless(parts[i], issuedAt) && ',' !in parts[i] {
      assert parts[i] in parts;
      if parts[i] in extras {
        var x :| 0 <= x < |extras| && extras[x] == parts[i];
        assert IsExtra(extras[x]);
      }
      PartIsHarmless(parts[i], issuedAt, digest);
    }
    SignedPartsClassified(issuedAt, digest);
    HarmlessPartsCarry(parts, issuedAt, digest, t, v);
    var k :| 0 <= k < |parts| && parts[k] == t;
    JoinNonEmpty(parts, k);
  }

  /** Signing and verifying are inverse up to freshness, for any sign time and any tolerance; and
    * neither adding v1 parts with hexadecimal values nor reordering the parts breaks that. */
  lemma StripeRoundTrip(scheme: StripeScheme, mac: Mac, secret: string, body: Bytes, signedAt: real,
                        extras: seq<string>, parts: seq<string>, tolerance: int, now: real)
    requires HexDigests(mac)
    requires forall i :: 0 <= i < |extras| ==> IsExtra(extras[i])
    requires var digest := mac(secret, scheme.Payload(Trunc(signedAt), body), scheme.algorithm);
             multiset(parts) == multiset(SignedParts(Trunc(signedAt), digest)) + multiset(extras)
    ensures parts != []
    ensures scheme.Verify(mac, secret, body, [(scheme.header, Join(parts, ','))], "", tolerance, now) ==
            Expected(Trunc(signedAt), tolerance, now)
  {
    var issuedAt := Trunc(signedAt);
    var digest := mac(secret, scheme.Payload(issuedAt, body), scheme.algorithm);
    ReorderedPartsCarry(parts, extras, issuedAt, digest);
    SplitJoin(parts, ',');
    CarriedIsVerified(scheme, mac, secret, body, ClassifyAll(parts), issuedAt, tolerance, now);
    assert ReadHeader([(scheme.header, Join(parts, ','))], scheme.header, "") == Some(Join(parts, ','));
  }

  lemma {:induction false} JoinNonEmpty(parts: seq<string>, i: nat)
    requires i < |parts| && parts[i] != ""
    ensures Join(parts, ',') != ""
  {
  }

  lemma JoinTwo(a: string, b: string)
    ensures Join([a, b], ',') == a + [','] + b
  {
    assert [a, b][1..] == [b];
  }

  lemma SignedIsJoin(issuedAt: int, digest: string)
    ensures "t=" + IntText(issuedAt) + ",v1=" + digest == Join(SignedParts(issuedAt, digest), ',')
  {
    var t := "t=" + IntText(issuedAt);
    JoinTwo(t, "v1=" + digest);
    assert ",v1=" == [','] + "v1=";
    assert t + ([','] + "v1=") + digest == t + [','] + ("v1=" + digest);
  }

  /** The header the scheme signs is the join of its two parts, so it verifies as long as it is fresh. */
  lemma SignThenVerify(scheme: StripeScheme, mac: Mac, secret: string, body: Bytes, signedAt: real,
                       tolerance: int, now: real)
    requires HexDigests(mac)
    ensures scheme.Verify(mac, secret, body, scheme.Sign(mac, secret, body, signedAt), "", tolerance, now) ==
            Expected(Trunc(signedAt), tolerance, now)
  {
    var issuedAt := Trunc(signedAt);
    var digest := mac(secret, scheme.Payload(issuedAt, body), scheme.algorithm);
    SignedIsJoin(issuedAt, digest);
    StripeRoundTrip(scheme, mac, secret, body, signedAt, [], SignedParts(issuedAt, digest), tolerance, now);
  }
}
