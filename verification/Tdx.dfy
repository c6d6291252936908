/** The signature section of a TDX v4 quote: three nested declared lengths, and the parser
    that accepts exactly the quotes that start with an encoding. */
module Tdx {
  import opened Wrappers
  import opened Wire

  const QUOTE_HEADER_LEN: nat := 48
  const TD_REPORT_LEN: nat := 584
  const SIGNED_LEN: nat := 632
  const SGX_REPORT_LEN: nat := 384
  const SIGNATURE_LEN: nat := 64
  const CERT_TYPE_QE_REPORT: nat := 6
  const CERT_TYPE_PCK_CHAIN: nat := 5

  datatype QuoteSignature = QuoteSignature(
    signedBody: Blob,
    quoteSignature: Blob,
    attestationKey: Blob,
    qe: QeMaterial)

  /** What is nested in the certification data. */
  datatype QeMaterial = QeMaterial(
    report: Blob,
    reportSignature: Blob,
    authData: Blob,
    pckChain: Blob)

  // ----- encodings

  function ChainBytes(chain: Blob): Blob {
    ToLittle(CERT_TYPE_PCK_CHAIN, 2) + (ToLittle(|chain|, 4) + (chain + []))
  }

  function CertBytes(q: QeMaterial): Blob {
    q.report + (q.reportSignature + (ToLittle(|q.authData|, 2) + (q.authData + ChainBytes(q.pckChain))))
  }

  function AuthBytes(s: QuoteSignature): Blob {
    var cert := CertBytes(s.qe);
    s.quoteSignature + (s.attestationKey + (ToLittle(CERT_TYPE_QE_REPORT, 2) + (ToLittle(|cert|, 4) + (cert + []))))
  }

  /** The quote up to the end of its declared signature section, and whatever follows. */
  function QuoteBytes(s: QuoteSignature, rest: Blob): Blob {
    var auth := AuthBytes(s);
    s.signedBody + (ToLittle(|auth|, 4) + (auth + rest))
  }

  predicate QeSized(q: QeMaterial) {
    && |q.report| == SGX_REPORT_LEN && |q.reportSignature| == SIGNATURE_LEN
    && Fits(|q.authData|, 2) && Fits(|q.pckChain|, 4)
  }

  predicate WellSized(s: QuoteSignature) {
    && |s.signedBody| == SIGNED_LEN && |s.quoteSignature| == SIGNATURE_LEN && |s.attestationKey| == SIGNATURE_LEN
    && QeSized(s.qe) && Fits(|CertBytes(s.qe)|, 4) && Fits(|AuthBytes(s)|, 4)
  }

  // ----- what a reader takes from the front

  /** A tag of a given value, a four-byte size and so many bytes that end the buffer. */
  function DecodeTagged(buf: Blob, tag: nat): Option<Blob> {
    var kind := ReadLittle(buf, 2);
    if kind.None? then None
    else
      var size := ReadLittle(kind.value.1, 4);
      if size.None? || kind.value.0 != tag then None
      else
        var body := ReadBytes(size.value.1, size.value.0);
        if body.None? || body.value.1 != [] then None else Some(body.value.0)
  }

  function DecodeCert(cert: Blob): Option<QeMaterial> {
    var report := ReadBytes(cert, SGX_REPORT_LEN);
    if report.None? then None
    else
      var signature := ReadBytes(report.value.1, SIGNATURE_LEN);
      if signature.None? then None
      else
        var size := ReadLittle(signature.value.1, 2);
        if size.None? then None
        else
          var auth := ReadBytes(size.value.1, size.value.0);
          if auth.None? then None
          else
            var chain := DecodeTagged(auth.value.1, CERT_TYPE_PCK_CHAIN);
            if chain.None? then None
            else Some(QeMaterial(report.value.0, signature.value.0, auth.value.0, chain.value))
  }

  function DecodeAuth(auth: Blob, signed: Blob): Option<QuoteSignature> {
    var signature := ReadBytes(auth, SIGNATURE_LEN);
    if signature.None? then None
    else
      var key := ReadBytes(signature.value.1, SIGNATURE_LEN);
      if key.None? then None
      else
        var cert := DecodeTagged(key.value.1, CERT_TYPE_QE_REPORT);
        if cert.None? then None
        else
          var qe := DecodeCert(cert.value);
          if qe.None? then None else Some(QuoteSignature(signed, signature.value.0, key.value.0, qe.value))
  }

  function DecodeQuote(quote: Blob): Option<(QuoteSignature, Blob)> {
    var signed := ReadBytes(quote, SIGNED_LEN);
    if signed.None? then None
    else
      var size := ReadLittle(signed.value.1, 4);
      if size.None? then None
      else
        var auth := ReadBytes(size.value.1, size.value.0);
        if auth.None? then None
        else
          var s := DecodeAuth(auth.value.0, signed.value.0);
          if s.None? then None else Some((s.value, auth.value.1))
  }

  lemma TaggedExact(buf: Blob, tag: nat, x: Blob)
    requires Fits(tag, 2)
    ensures DecodeTagged(buf, tag) == Some(x) <==>
            Fits(|x|, 4) && buf == ToLittle(tag, 2) + (ToLittle(|x|, 4) + (x + []))
  {
    if DecodeTagged(buf, tag) == Some(x) {
      var r1 := ReadLittle(buf, 2).value.1;
      var r2 := ReadLittle(r1, 4).value.1;
      ReadBytesExact(r2, |x|, x, []);
      ReadLittleExact(r1, 4, |x|, r2);
      ReadLittleExact(buf, 2, tag, r1);
    }
    if Fits(|x|, 4) && buf == ToLittle(tag, 2) + (ToLittle(|x|, 4) + (x + [])) {
      var r1 := ToLittle(|x|, 4) + (x + []);
      ReadLittleExact(buf, 2, tag, r1);
      ReadLittleExact(r1, 4, |x|, x + []);
      ReadBytesExact(x + [], |x|, x, []);
    }
  }

  lemma TagsFit()
    ensures Fits(CERT_TYPE_QE_REPORT, 2) && Fits(CERT_TYPE_PCK_CHAIN, 2)
  {
  }

  lemma CertExact(cert: Blob, q: QeMaterial)
    ensures DecodeCert(cert) == Some(q) <==> QeSized(q) && cert == CertBytes(q)
  {
    TagsFit();
    if DecodeCert(cert) == Some(q) {
      var r1 := ReadBytes(cert, SGX_REPORT_LEN).value.1;
      var r2 := ReadBytes(r1, SIGNATURE_LEN).value.1;
      var r3 := ReadLittle(r2, 2).value.1;
      var r4 := ReadBytes(r3, |q.authData|).value.1;
      TaggedExact(r4, CERT_TYPE_PCK_CHAIN, q.pckChain);
      ReadBytesExact(r3, |q.authData|, q.authData, r4);
      ReadLittleExact(r2, 2, |q.authData|, r3);
      ReadBytesExact(r1, SIGNATURE_LEN, q.reportSignature, r2);
      ReadBytesExact(cert, SGX_REPORT_LEN, q.report, r1);
    }
    if QeSized(q) && cert == CertBytes(q) {
      var r4 := ChainBytes(q.pckChain);
      var r3 := q.authData + r4;
      var r2 := ToLittle(|q.authData|, 2) + r3;
      var r1 := q.reportSignature + r2;
      ReadBytesExact(cert, SGX_REPORT_LEN, q.report, r1);
      ReadBytesExact(r1, SIGNATURE_LEN, q.reportSignature, r2);
      ReadLittleExact(r2, 2, |q.authData|, r3);
      ReadBytesExact(r3, |q.authData|, q.authData, r4);
      TaggedExact(r4, CERT_TYPE_PCK_CHAIN, q.pckChain);
    }
  }

  lemma AuthExact(auth: Blob, signed: Blob, s: QuoteSignature)
    requires |signed| == SIGNED_LEN && Fits(|auth|, 4)
    ensures DecodeAuth(auth, signed) == Some(s) <==> WellSized(s) && s.signedBody == signed && auth == AuthBytes(s)
  {
    TagsFit();
    var cert := CertBytes(s.qe);
    CertExact(cert, s.qe);
    if DecodeAuth(auth, signed) == Some(s) {
      var r1 := ReadBytes(auth, SIGNATURE_LEN).value.1;
      var r2 := ReadBytes(r1, SIGNATURE_LEN).value.1;
      CertExact(DecodeTagged(r2, CERT_TYPE_QE_REPORT).value, s.qe);
      TaggedExact(r2, CERT_TYPE_QE_REPORT, cert);
      ReadBytesExact(r1, SIGNATURE_LEN, s.attestationKey, r2);
      ReadBytesExact(auth, SIGNATURE_LEN, s.quoteSignature, r1);
    }
    if WellSized(s) && s.signedBody == signed && auth == AuthBytes(s) {
      var r2 := ToLittle(CERT_TYPE_QE_REPORT, 2) + (ToLittle(|cert|, 4) + (cert + []));
      var r1 := s.attestationKey + r2;
      ReadBytesExact(auth, SIGNATURE_LEN, s.quoteSignature, r1);
      ReadBytesExact(r1, SIGNATURE_LEN, s.attestationKey, r2);
      TaggedExact(r2, CERT_TYPE_QE_REPORT, cert);
    }
  }

  /** A quote decodes exactly when it is an encoding with something after it. */
  lemma QuoteExact(quote: Blob, s: QuoteSignature, rest: Blob)
    ensures DecodeQuote(quote) == Some((s, rest)) <==> WellSized(s) && quote == QuoteBytes(s, rest)
  {
    if DecodeQuote(quote) == Some((s, rest)) {
      var r1 := ReadBytes(quote, SIGNED_LEN).value.1;
      var size := ReadLittle(r1, 4).value;
      var auth := ReadBytes(size.1, size.0).value.0;
      ReadLittleExact(r1, 4, size.0, size.1);
      AuthExact(auth, s.signedBody, s);
      ReadBytesExact(size.1, size.0, auth, rest);
      ReadBytesExact(quote, SIGNED_LEN, s.signedBody, r1);
    }
    if WellSized(s) && quote == QuoteBytes(s, rest) {
      var auth := AuthBytes(s);
      var r1 := ToLittle(|auth|, 4) + (auth + rest);
      ReadBytesExact(quote, SIGNED_LEN, s.signedBody, r1);
      ReadLittleExact(r1, 4, |auth|, auth + rest);
      ReadBytesExact(auth + rest, |auth|, auth, rest);
      AuthExact(auth, s.signedBody, s);
    }
  }

  // ----- the parser

  lemma BytesAt(buf: Blob, pos: nat, n: nat)
    requires pos + n <= |buf|
    ensures ReadBytes(buf[pos..], n) == Some((buf[pos..pos + n], buf[pos + n..]))
  {
    assert buf[pos..][..n] == buf[pos..pos + n] && buf[pos..][n..] == buf[pos + n..];
  }

  lemma LittleAt(buf: Blob, pos: nat, width: nat)
    requires pos + width <= |buf|
    ensures ReadLittle(buf[pos..], width) == Some((FromLittle(buf[pos..pos + width]), buf[pos + width..]))
  {
    BytesAt(buf, pos, width);
  }

  lemma TaggedAt(buf: Blob, pos: nat, tag: nat)
    requires pos + 6 <= |buf|
    ensures var kind, size := FromLittle(buf[pos..pos + 2]), FromLittle(buf[pos + 2..pos + 6]);
            DecodeTagged(buf[pos..], tag) ==
            if kind == tag && pos + 6 + size == |buf| then Some(buf[pos + 6..pos + 6 + size]) else None
  {
    LittleAt(buf, pos, 2);
    LittleAt(buf, pos + 2, 4);
    var size := FromLittle(buf[pos + 2..pos + 6]);
    if pos + 6 + size <= |buf| {
      BytesAt(buf, pos + 6, size);
    }
  }

  method ParseCert(certData: Blob) returns (r: Option<QeMaterial>)
    ensures r == DecodeCert(certData)
  {
    if |certData| < 448 + 6 {
      return None;
    }
    assert certData[0..] == certData;
    BytesAt(certData, 0, SGX_REPORT_LEN);
    BytesAt(certData, SGX_REPORT_LEN, SIGNATURE_LEN);
    var qeReport := certData[0..SGX_REPORT_LEN];
    var qeReportSig := certData[SGX_REPORT_LEN..SGX_REPORT_LEN + SIGNATURE_LEN];
    var at := SGX_REPORT_LEN + SIGNATURE_LEN;
    LittleAt(certData, at, 2);
    var qeAuthSize := FromLittle(certData[at..at + 2]);
    at := at + 2;
    if at + qeAuthSize + 6 > |certData| {
      return None;
    }
    BytesAt(certData, at, qeAuthSize);
    var qeAuth := certData[at..at + qeAuthSize];
    at := at + qeAuthSize;
    TaggedAt(certData, at, CERT_TYPE_PCK_CHAIN);
    var pckType, pckSize := FromLittle(certData[at..at + 2]), FromLittle(certData[at + 2..at + 6]);
    at := at + 6;
    if pckType != CERT_TYPE_PCK_CHAIN {
      return None;
    }
    if at + pckSize > |certData| {
      return None;
    }
    if at + pckSize < |certData| {
      return None;
    }
    return Some(QeMaterial(qeReport, qeReportSig, qeAuth, certData[at..at + pckSize]));
  }

  lemma AuthAt(auth: Blob, signed: Blob, cert: Option<Blob>)
    requires |auth| >= 134 && cert == DecodeTagged(auth[128..], CERT_TYPE_QE_REPORT)
    ensures DecodeAuth(auth, signed) ==
            if cert.None? || DecodeCert(cert.value).None? then None
            else Some(QuoteSignature(signed, auth[0..64], auth[64..128], DecodeCert(cert.value).value))
  {
    assert auth[0..] == auth;
    BytesAt(auth, 0, SIGNATURE_LEN);
    BytesAt(auth, SIGNATURE_LEN, SIGNATURE_LEN);
  }

  lemma AuthFields(auth: Blob, signed: Blob, kind: nat, size: nat, r: Option<QuoteSignature>)
    requires |auth| >= 134 && kind == FromLittle(auth[128..130]) && size == FromLittle(auth[130..134])
    requires r == DecodeAuth(auth, signed)
    ensures kind != CERT_TYPE_QE_REPORT || 134 + size != |auth| ==> r.None?
    ensures kind == CERT_TYPE_QE_REPORT && 134 + size == |auth| ==>
              var qe := DecodeCert(auth[134..134 + size]);
              r == if qe.None? then None else Some(QuoteSignature(signed, auth[0..64], auth[64..128], qe.value))
  {
    TaggedAt(auth, 128, CERT_TYPE_QE_REPORT);
    AuthAt(auth, signed, DecodeTagged(auth[128..], CERT_TYPE_QE_REPORT));
  }

  lemma ShortAuth(auth: Blob, signed: Blob)
    requires |auth| < 134
    ensures DecodeAuth(auth, signed).None?
  {
  }

  method ParseAuth(auth: Blob, signed: Blob) returns (r: Option<QuoteSignature>)
    ensures r == DecodeAuth(auth, signed)
  {
    if |auth| < 134 {
      ShortAuth(auth, signed);
      return None;
    }
    var sig, key := auth[0..64], auth[64..128];
    var certType, certSize := FromLittle(auth[128..130]), FromLittle(auth[130..134]);
    AuthFields(auth, signed, certType, certSize, DecodeAuth(auth, signed));
    if certType != CERT_TYPE_QE_REPORT {
      return None;
    }
    if 134 + certSize > |auth| {
      return None;
    }
    if 134 + certSize < |auth| {
      return None;
    }
    var qe := ParseCert(auth[134..134 + certSize]);
    if qe.None? {
      return None;
    }
    return Some(QuoteSignature(signed, sig, key, qe.value));
  }

  function SectionOf(d: Option<(QuoteSignature, Blob)>): Option<QuoteSignature> {
    if d.None? then None else Some(d.value.0)
  }

  lemma AcceptedQuotes(quote: Blob)
    ensures forall s :: SectionOf(DecodeQuote(quote)) == Some(s) <==>
                        WellSized(s) && exists rest :: quote == QuoteBytes(s, rest)
  {
    forall s
      ensures SectionOf(DecodeQuote(quote)) == Some(s) <==> WellSized(s) && exists rest :: quote == QuoteBytes(s, rest)
    {
      var d := DecodeQuote(quote);
      if d.Some? {
        QuoteExact(quote, d.value.0, d.value.1);
      }
      if WellSized(s) && exists rest :: quote == QuoteBytes(s, rest) {
        var rest :| quote == QuoteBytes(s, rest);
        QuoteExact(quote, s, rest);
      }
    }
  }

  /** Accepts exactly the quotes that start with the encoding of a section of proper sizes. */
  method ParseQuoteSignature(quote: Blob) returns (r: Option<QuoteSignature>)
    ensures forall s :: r == Some(s) <==> WellSized(s) && exists rest :: quote == QuoteBytes(s, rest)
  {
    AcceptedQuotes(quote);
    if |quote| < QUOTE_HEADER_LEN + TD_REPORT_LEN + 4 {
      return None;
    }
    assert quote[0..] == quote;
    BytesAt(quote, 0, SIGNED_LEN);
    var signed := quote[..QUOTE_HEADER_LEN + TD_REPORT_LEN];
    var off := QUOTE_HEADER_LEN + TD_REPORT_LEN;
    LittleAt(quote, off, 4);
    var authSize := FromLittle(quote[off..off + 4]);
    off := off + 4;
    if off + authSize > |quote| {
      return None;
    }
    BytesAt(quote, off, authSize);
    r := ParseAuth(quote[off..off + authSize], signed);
  }

  /** The declared lengths leave no choice: two sections that start one quote are equal. */
  lemma SectionIsUnique(quote: Blob, s: QuoteSignature, rest: Blob, s': QuoteSignature, rest': Blob)
    requires WellSized(s) && WellSized(s') && quote == QuoteBytes(s, rest) == QuoteBytes(s', rest')
    ensures s == s' && rest == rest'
  {
    QuoteExact(quote, s, rest);
    QuoteExact(quote, s', rest');
  }
}
