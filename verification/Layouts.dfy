/** The byte layouts of TPM attestations and TDX quotes, spelled out. */
module Layouts {
  import opened Wire
  import opened Tpm
  import T = Tdx

  lemma OneAndTwo(n: nat)
    ensures ToBig(n, 1) == [n % 256] == ToLittle(n, 1)
    ensures ToBig(n, 2) == [n / 256 % 256, n % 256]
    ensures ToLittle(n, 2) == [n % 256, n / 256 % 256]
  {
    var m := n / 256;
    assert ToBig(m, 0) == [] == ToLittle(m, 0);
    assert ToBig(m, 1) == [m % 256] == ToLittle(m, 1);
  }

  lemma BigFour(n: nat)
    ensures ToBig(n, 4) == [n / 256 / 256 / 256 % 256, n / 256 / 256 % 256, n / 256 % 256, n % 256]
  {
    var a, b, c := n / 256, n / 256 / 256, n / 256 / 256 / 256;
    assert ToBig(c, 1) == [c % 256];
    assert ToBig(b, 2) == [c % 256, b % 256];
    assert ToBig(a, 3) == [c % 256, b % 256, a % 256];
  }

  lemma LittleFour(n: nat)
    ensures ToLittle(n, 4) == [n % 256, n / 256 % 256, n / 256 / 256 % 256, n / 256 / 256 / 256 % 256]
  {
    var a, b, c := n / 256, n / 256 / 256, n / 256 / 256 / 256;
    assert ToLittle(c, 1) == [c % 256];
    assert ToLittle(b, 2) == [b % 256, c % 256];
    assert ToLittle(a, 3) == [a % 256, b % 256, c % 256];
  }

  /** The header: magic, type, two sized buffers, 17 bytes of clock, the firmware version in
      eight bytes, and the attested structure. */
  lemma HeaderLayout(a: Attest)
    requires Encoded(a)
    ensures |a.clockInfo| == 17
    ensures a.raw == ToBig(a.magic, 4) + ToBig(a.attestType, 2) +
                     ToBig(|a.qualifiedSigner|, 2) + a.qualifiedSigner +
                     ToBig(|a.qualifyingData|, 2) + a.qualifyingData +
                     a.clockInfo + ToBig(a.firmwareVersion, 8) + a.attestedRaw
  {
  }

  /** A quote has type 0x8018: a count in four bytes, the selections, and the sized digest. */
  lemma QuoteLayout(data: Blob, a: Attest, q: Quote)
    requires IsQuote(data, a, q)
    ensures q.magic == a.magic == 0xFF54_4347 && q.attestType == a.attestType == 0x8018
    ensures q.raw == a.raw && q.qualifyingData == a.qualifyingData
    ensures a.attestedRaw ==
            ToBig(|q.pcrSelections|, 4) + SelectionBytes(q.pcrSelections, ToBig(|q.pcrDigest|, 2) + q.pcrDigest)
  {
  }

  /** A selection: the hash algorithm in two bytes, the length of the bitmap in one, the bitmap. */
  lemma SelectionLayout(s: PcrSelection, more: seq<PcrSelection>, rest: Blob)
    requires |s.pcrSelect| < 256 && forall i :: 0 <= i < |more| ==> |more[i].pcrSelect| < 256
    ensures SelectionBytes([], rest) == rest
    ensures SelectionBytes([s] + more, rest) ==
            ToBig(s.hashAlg, 2) + [|s.pcrSelect|] + s.pcrSelect + SelectionBytes(more, rest)
  {
    assert ([s] + more)[1..] == more;
  }

  /** Registers from the low bit up: the first of a byte is its lowest bit, and each further
      one the same bit of the halved byte. */
  lemma RegisterBits(b: nat, k: nat)
    ensures BitSet(b, 0) <==> b % 2 == 1
    ensures BitSet(b, k + 1) <==> BitSet(b / 2, k)
  {
  }

  /** NV certifications have type 0x8014: a sized name, an offset in two bytes, sized contents. */
  lemma NvLayout(info: NvCertifyInfo)
    ensures ST_ATTEST_NV == 0x8014
    ensures NvInfoBytes(info) == ToBig(|info.indexName|, 2) + info.indexName + ToBig(info.offset, 2) +
                                 ToBig(|info.nvContents|, 2) + info.nvContents
  {
  }

  /** The two certification data types of a TDX quote: 6, and 5 inside it. */
  lemma CertTypes()
    ensures ToLittle(T.CERT_TYPE_QE_REPORT, 2) == [6, 0] && ToLittle(T.CERT_TYPE_PCK_CHAIN, 2) == [5, 0]
  {
    OneAndTwo(6);
    OneAndTwo(5);
  }

  /** A TDX quote: 632 signed bytes, then its signature section behind a four-byte size. */
  lemma TdxLayout(s: T.QuoteSignature, rest: Blob)
    requires T.WellSized(s)
    ensures |s.signedBody| == 632
    ensures T.QuoteBytes(s, rest) == s.signedBody + ToLittle(|T.AuthBytes(s)|, 4) + T.AuthBytes(s) + rest
  {
  }

  /** The section: signature and key of 64 bytes each, then data of type 6. */
  lemma TdxSection(s: T.QuoteSignature)
    requires T.WellSized(s)
    ensures |s.quoteSignature| == 64 && |s.attestationKey| == 64
    ensures var cert := T.CertBytes(s.qe);
            T.AuthBytes(s) == s.quoteSignature + s.attestationKey + [6, 0] + ToLittle(|cert|, 4) + cert
  {
    CertTypes();
  }

  /** The certification data: a report of 384 bytes, its signature of 64, authentication data
      behind a two-byte size, and the certificate chain as data of type 5. */
  lemma TdxCertification(q: T.QeMaterial)
    requires T.QeSized(q)
    ensures |q.report| == 384 && |q.reportSignature| == 64
    ensures T.CertBytes(q) == q.report + q.reportSignature + ToLittle(|q.authData|, 2) + q.authData +
                              [5, 0] + ToLittle(|q.pckChain|, 4) + q.pckChain
  {
    CertTypes();
  }
}
