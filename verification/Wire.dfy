/** Fixed-width integers and sized buffers as bytes, and readers that invert them. */
module Wire {
  import opened Wrappers
  import opened Primitives

  type Blob = seq<Octet>

  // ----- integers

  /** `int.from_bytes(bs, "big")` */
  function FromBig(bs: Blob): nat {
    if bs == [] then 0 else FromBig(bs[..|bs| - 1]) * 256 + bs[|bs| - 1]
  }

  function ToBig(n: nat, width: nat): (bs: Blob)
    ensures |bs| == width
  {
    if width == 0 then [] else ToBig(n / 256, width - 1) + [n % 256]
  }

  /** `int.from_bytes(bs, "little")` */
  function FromLittle(bs: Blob): nat {
    if bs == [] then 0 else bs[0] + 256 * FromLittle(bs[1..])
  }

  function ToLittle(n: nat, width: nat): (bs: Blob)
    ensures |bs| == width
  {
    if width == 0 then [] else [n % 256] + ToLittle(n / 256, width - 1)
  }

  /** n can be written in so many bytes. */
  predicate Fits(n: nat, width: nat) {
    if width == 0 then n == 0 else Fits(n / 256, width - 1)
  }

  lemma FitsTwo(n: nat)
    ensures Fits(n, 2) <==> n < 0x1_0000
  {
    assert Fits(n / 256, 1) <==> Fits(n / 256 / 256, 0);
  }

  lemma {:induction false} BigExact(bs: Blob, n: nat)
    ensures FromBig(bs) == n && bs != [] <==> bs == ToBig(n, |bs|) && Fits(n, |bs|) && bs != []
  {
    if bs != [] {
      var j := |bs| - 1;
      if j == 0 {
        assert ToBig(n / 256, 0) == [] && FromBig(bs[..0]) == 0;
        assert bs == [bs[0]];
      } else {
        BigExact(bs[..j], n / 256);
        assert bs == bs[..j] + [bs[j]];
        assert ToBig(n, |bs|)[..j] == ToBig(n / 256, j) && ToBig(n, |bs|)[j] == n % 256;
      }
    }
  }

  lemma {:induction false} LittleExact(bs: Blob, n: nat)
    ensures FromLittle(bs) == n && bs != [] <==> bs == ToLittle(n, |bs|) && Fits(n, |bs|) && bs != []
  {
    if bs != [] {
      if |bs| == 1 {
        assert ToLittle(n / 256, 0) == [] && FromLittle(bs[1..]) == 0;
      } else {
        LittleExact(bs[1..], n / 256);
        assert bs == [bs[0]] + bs[1..];
        assert ToLittle(n, |bs|)[1..] == ToLittle(n / 256, |bs| - 1) && ToLittle(n, |bs|)[0] == n % 256;
      }
    }
  }

  // ----- readers

  function ReadBytes(buf: Blob, n: nat): Option<(Blob, Blob)> {
    if |buf| < n then None else Some((buf[..n], buf[n..]))
  }

  function ReadBig(buf: Blob, width: nat): Option<(nat, Blob)> {
    if |buf| < width then None else Some((FromBig(buf[..width]), buf[width..]))
  }

  function ReadLittle(buf: Blob, width: nat): Option<(nat, Blob)> {
    if |buf| < width then None else Some((FromLittle(buf[..width]), buf[width..]))
  }

  /** A two-byte size and so many bytes. */
  function Sized(x: Blob): Blob {
    ToBig(|x|, 2) + x
  }

  function ReadSized(buf: Blob): Option<(Blob, Blob)> {
    var size := ReadBig(buf, 2);
    if size.None? then None else ReadBytes(size.value.1, size.value.0)
  }

  lemma ReadBytesExact(buf: Blob, n: nat, x: Blob, rest: Blob)
    ensures ReadBytes(buf, n) == Some((x, rest)) <==> |x| == n && buf == x + rest
  {
  }

  lemma ReadBigExact(buf: Blob, width: nat, n: nat, rest: Blob)
    requires width > 0
    ensures ReadBig(buf, width) == Some((n, rest)) <==> Fits(n, width) && buf == ToBig(n, width) + rest
  {
    if |buf| >= width {
      BigExact(buf[..width], n);
      assert buf == buf[..width] + buf[width..];
    }
  }

  lemma ReadLittleExact(buf: Blob, width: nat, n: nat, rest: Blob)
    requires width > 0
    ensures ReadLittle(buf, width) == Some((n, rest)) <==> Fits(n, width) && buf == ToLittle(n, width) + rest
  {
    if |buf| >= width {
      LittleExact(buf[..width], n);
      assert buf == buf[..width] + buf[width..];
    }
  }

  lemma ReadSizedExact(buf: Blob, x: Blob, rest: Blob)
    ensures ReadSized(buf) == Some((x, rest)) <==> |x| < 0x1_0000 && buf == Sized(x) + rest
  {
    FitsTwo(|x|);
    assert Sized(x) + rest == ToBig(|x|, 2) + (x + rest);
    ReadBigExact(buf, 2, |x|, x + rest);
    var size := ReadBig(buf, 2);
    if size.Some? {
      ReadBytesExact(size.value.1, size.value.0, x, rest);
    }
  }
}
