/** The rolling hash that UriExtensions.HostId, ToHostId, PathId and LinkId
    compute over a host, a local path or a whole URL. The four source
    methods run the same loop; it is written once here, as `Fingerprint`,
    and each of them applies it to its own normalised string. */
module UriFingerprint {
  import opened Wrappers
  import opened Text

  /** The bits of a C# `int`. The loop body uses only `<<`, `&`, `+`, `^`
      and `>>` on `int`, whose bit patterns are those of `bv32` (C# `+` is
      unchecked and wraps modulo 2^32). */
  type Bits = bv32

  const Mask28: Bits := 0xfff_ffff
  const HighBits: Bits := 0xfe0_0000

  /** `(h << 6) & 0xfffffff` plus the contribution `c + (c << 14)` of one
      code unit. */
  function ShiftIn(h: Bits, c: Char16): Bits
  {
    var u := (c as bv16) as Bits;
    ((h << 6) & Mask28) + u + (u << 14)
  }

  /** With `g = h & 0xfe00000`: `h ^ (g >> 21)` when `g` is non-zero, else
      `h` unchanged. */
  function Fold(h: Bits): Bits
  {
    var g := h & HighBits;
    if g != 0 then h ^ (g >> 21) else h
  }

  /** One iteration of the loop body, from `h` with code unit `c`. Bit 31,
      the sign bit of the C# `int`, is never set. */
  function Step(h: Bits, c: Char16): (r: Bits)
    ensures r < 0x8000_0000
  {
    Fold(ShiftIn(h, c))
  }

  /** The accumulator after the loop has walked `s` from its last code unit
      down to its first, starting from 0. */
  function HashBits(s: Str): (r: Bits)
    ensures r < 0x8000_0000
  {
    if |s| == 0 then 0 else Step(HashBits(s[1..]), s[0])
  }

  /** The shared loop. The result is the bit pattern of the C# `int` the
      source returns; its sign bit is clear, so that `int` is never
      negative. */
  method Fingerprint(s: Str) returns (h: Bits)
    ensures h == HashBits(s)
    ensures h < 0x8000_0000
    ensures |s| == 0 ==> h == 0
  {
    h := 0;
    var i := |s| - 1;
    while i >= 0
      invariant -1 <= i < |s|
      invariant h == HashBits(s[i + 1..])
      decreases i + 1
    {
      assert s[i..][1..] == s[i + 1..];
      var shifted := ShiftIn(h, s[i]);
      h := Fold(shifted);
      i := i - 1;
    }
    assert s[0..] == s;
  }

  // ---------------------------------------------------------------------
  // Facts about one step
  // ---------------------------------------------------------------------

  /** Masking the shifted accumulator with 0xfffffff is reduction modulo
      2^28, so whatever `h << 6` pushed past bit 31 is gone. */
  lemma MaskIsModulo(h: Bits)
    ensures (h << 6) & Mask28 == (h * 64) % 0x1000_0000
  {
  }

  /** The folded-in value `g >> 21` is below 128. */
  lemma FoldIsSmall(h: Bits)
    ensures (h & HighBits) >> 21 < 128
  {
  }

  /** An xor with a value below 128 changes bits 0 to 6 only. */
  lemma XorTouchesLowBits(x: Bits, y: Bits)
    requires y < 128
    ensures (x ^ y) & 0xffff_ff80 == x & 0xffff_ff80
  {
  }

  /** The test on `g` makes no difference: xor with a zero `g` is the
      identity. */
  lemma FoldIsXor(h: Bits)
    ensures Fold(h) == h ^ ((h & HighBits) >> 21)
  {
  }

  /** The fold changes bits 0 to 6 only. */
  lemma FoldKeepsHighBits(h: Bits)
    ensures Fold(h) & 0xffff_ff80 == h & 0xffff_ff80
  {
    FoldIsXor(h);
    FoldIsSmall(h);
    XorTouchesLowBits(h, (h & HighBits) >> 21);
  }

  /** The hash is computed from the last code unit back to the first. */
  lemma HashPrepend(c: Char16, s: Str)
    ensures HashBits([c] + s) == Step(HashBits(s), c)
  {
    assert ([c] + s)[1..] == s;
  }

  // ---------------------------------------------------------------------
  // The four source methods
  // ---------------------------------------------------------------------

  /** "www." */
  const Www: Str := [0x77, 0x77, 0x77, Period]

  /** The host as HostId and ToHostId hash it: lower-cased, then with every
      occurrence of "www." removed, not only a leading one. */
  function NormalizeHost(host: Str): Str
  {
    Replace(ToLower(host), Www, [])
  }

  /** UriExtensions.HostId, given `uri.Host`, or None for a null `uri`,
      whose `Host` throws. */
  method HostId(host: Option<Str>) returns (r: Outcome<Bits>)
    ensures host.None? <==> r == Throws(NullReference)
    ensures host.Some? ==> r == Returns(HashBits(NormalizeHost(host.value))) && r.value < 0x8000_0000
  {
    if host.None? {
      return Throws(NullReference);
    }
    var h := Fingerprint(NormalizeHost(host.value));
    r := Returns(h);
  }

  /** UriExtensions.ToHostId, given `uri.Host`, or None for a null `uri`. */
  method ToHostId(host: Option<Str>) returns (h: Bits)
    ensures host.None? ==> h == 1
    ensures host.Some? ==> h == HashBits(NormalizeHost(host.value))
    ensures h < 0x8000_0000
  {
    if host.None? {
      return 1;
    }
    h := Fingerprint(NormalizeHost(host.value));
  }

  /** The hash of a lower-cased string, which PathId and LinkId both take. */
  method LoweredFingerprint(s: Str) returns (h: Bits)
    ensures h == HashBits(ToLower(s))
    ensures h < 0x8000_0000
  {
    h := Fingerprint(ToLower(s));
  }

  /** UriExtensions.PathId, given `uri.LocalPath`, or None for a null
      `uri`, whose `LocalPath` throws. */
  method PathId(localPath: Option<Str>) returns (r: Outcome<Bits>)
    ensures localPath.None? <==> r == Throws(NullReference)
    ensures localPath.Some? ==> r == Returns(HashBits(ToLower(localPath.value))) && r.value < 0x8000_0000
  {
    if localPath.None? {
      return Throws(NullReference);
    }
    var h := LoweredFingerprint(localPath.value);
    r := Returns(h);
  }

  /** UriExtensions.LinkId, given `uri.ToString()`, or None for a null
      `uri`, whose `ToString()` throws. */
  method LinkId(url: Option<Str>) returns (r: Outcome<Bits>)
    ensures url.None? <==> r == Throws(NullReference)
    ensures url.Some? ==> r == Returns(HashBits(ToLower(url.value))) && r.value < 0x8000_0000
  {
    if url.None? {
      return Throws(NullReference);
    }
    var h := LoweredFingerprint(url.value);
    r := Returns(h);
  }

  // ---------------------------------------------------------------------
  // Normalisation
  // ---------------------------------------------------------------------

  lemma ToLowerConcat(a: Str, b: Str)
    ensures ToLower(a + b) == ToLower(a) + ToLower(b)
  {
  }

  /** Hosts that differ only in the case of ASCII letters have the same
      normalisation, hence the same HostId. */
  lemma NormalizeHostIgnoresCase(a: Str, b: Str)
    requires EqualsIgnoreCase(a, b)
    ensures NormalizeHost(a) == NormalizeHost(b)
  {
  }

  /** A leading "www.", in any case, does not change the normalised host,
      so `www.example.com` and `example.com` get the same HostId. */
  lemma NormalizeHostDropsWww(prefix: Str, rest: Str)
    requires EqualsIgnoreCase(prefix, Www)
    ensures NormalizeHost(prefix + rest) == NormalizeHost(rest)
  {
    assert ToLower(Www) == Www;
    ToLowerConcat(prefix, rest);
    var s := Www + ToLower(rest);
    assert s[..|Www|] == Www && s[|Www|..] == ToLower(rest);
  }
}
