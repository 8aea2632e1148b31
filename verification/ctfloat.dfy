/**
 Compile-time real to target-float bridge (`CTFloat::toAPFloat`).

 The host's `real_t` is given by its raw storage bytes. When `real_t` is a
 plain double the value is converted numerically; otherwise its storage is
 reinterpreted, through a union, as an array of 64-bit words and handed to a
 tagged arbitrary-precision float whose format is chosen by the host
 architecture the compiler itself was built for.

 The build-time `#if` choice of host architecture is the `arch` field of
 `HostConfig`, so every branch can be stated and checked. The numeric
 conversion `static_cast<double>` is a parameter of the model; APFloat and
 APInt are kept as data (a format tag, a bit width and the words).
 */
module CTFloat {

  /** One byte of host storage. */
  type byte = b: int | 0 <= b < 0x100

  /** Number of values one 64-bit word can hold. */
  const WordModulus: nat := 0x1_0000_0000_0000_0000

  /** One `uint64_t` element of the union's `bits` array. */
  type uint64 = w: int | 0 <= w < WordModulus

  /** Host architecture, as selected by `__i386__`/`__x86_64__`, `__aarch64__`,
      `__ppc__`/`__ppc64__`, or none of them. */
  datatype Arch = X86 | AArch64 | PPC | OtherArch

  /** Byte order of the host, which decides how eight stored bytes read as a word. */
  datatype ByteOrder = LittleEndian | BigEndian

  /** What the compiler's own build fixes: `sizeof(real_t)`, the host
      architecture and the host byte order. */
  datatype HostConfig = HostConfig(realSize: nat, arch: Arch, order: ByteOrder)

  /** The APFloat semantics the bridge can select for a wide `real_t`. */
  datatype Format = X87DoubleExtended | IEEEquad | PPCDoubleDouble

  /** The value stored in `dst`: either an APFloat built from a double
      (the double itself is opaque, of type `D`), or one built from a format
      and an APInt of `bitWidth` bits over `words`. */
  datatype APFloat<D> =
    | Binary64(value: D)
    | Tagged(format: Format, bitWidth: nat, words: seq<uint64>)

  /** The two ways the bridge aborts: the `assert` on the size of `real_t`,
      and `llvm_unreachable` for an unknown host. */
  datatype Failure = RealNarrowerThanDouble | UnknownHostReal

  datatype Outcome<T> = Done(value: T) | Fatal(failure: Failure)

  // ---------------------------------------------------------------------------
  // Bytes and words
  // ---------------------------------------------------------------------------

  /** Number of elements of the union's `bits` array: `(sizeof(real_t) + 7) / 8`. */
  function WordCount(realSize: nat): (n: nat)
    ensures realSize <= 8 * n < realSize + 8
  {
    (realSize + 7) / 8
  }

  /** Bytes of the union that lie beyond the `real_t` member and that
      `u.fp = src` does not write. */
  function TailLength(realSize: nat): (k: nat)
    ensures realSize + k == 8 * WordCount(realSize)
    ensures k < 8
  {
    8 * WordCount(realSize) - realSize
  }

  function Pow256(k: nat): (p: nat)
    ensures p > 0
  {
    if k == 0 then 1 else 0x100 * Pow256(k - 1)
  }

  /** The number whose base-256 digits, least significant first, are `b`. */
  function LeValue(b: seq<byte>): (v: nat)
  {
    if |b| == 0 then 0 else b[0] + 0x100 * LeValue(b[1..])
  }

  /** The `k` least significant base-256 digits of `v`, least significant first. */
  function LeBytes(v: nat, k: nat): (b: seq<byte>)
    ensures |b| == k
  {
    if k == 0 then [] else [v % 0x100] + LeBytes(v / 0x100, k - 1)
  }

  function Reverse(b: seq<byte>): (r: seq<byte>)
    ensures |r| == |b|
    ensures forall i :: 0 <= i < |b| ==> r[i] == b[|b| - 1 - i]
  {
    if |b| == 0 then [] else Reverse(b[1..]) + [b[0]]
  }

  lemma {:induction false} LeValueBound(b: seq<byte>)
    ensures LeValue(b) < Pow256(|b|)
  {
    if |b| > 0 {
      LeValueBound(b[1..]);
    }
  }

  lemma {:induction false} LeBytesOfLeValue(b: seq<byte>)
    ensures LeBytes(LeValue(b), |b|) == b
  {
    if |b| > 0 {
      var v := LeValue(b);
      assert v % 0x100 == b[0] && v / 0x100 == LeValue(b[1..]);
      LeBytesOfLeValue(b[1..]);
    }
  }

  lemma {:induction false} LeValueOfLeBytes(v: nat, k: nat)
    requires v < Pow256(k)
    ensures LeValue(LeBytes(v, k)) == v
  {
    if k > 0 {
      LeValueOfLeBytes(v / 0x100, k - 1);
      assert LeBytes(v, k)[1..] == LeBytes(v / 0x100, k - 1);
    }
  }

  lemma ReverseReverse(b: seq<byte>)
    ensures Reverse(Reverse(b)) == b
  {
  }

  lemma Pow256Eight()
    ensures Pow256(8) == WordModulus
  {
  }

  /** The 64-bit word that eight stored bytes make on a host of byte order `order`. */
  function WordOf(b: seq<byte>, order: ByteOrder): (w: uint64)
    requires |b| == 8
  {
    LeValueBound(b);
    LeValueBound(Reverse(b));
    Pow256Eight();
    match order
    case LittleEndian => LeValue(b)
    case BigEndian => LeValue(Reverse(b))
  }

  /** The eight bytes a word occupies in host storage. */
  function BytesOf(w: uint64, order: ByteOrder): (b: seq<byte>)
    ensures |b| == 8
  {
    match order
    case LittleEndian => LeBytes(w, 8)
    case BigEndian => Reverse(LeBytes(w, 8))
  }

  /** Storing a word and reading it back gives the word. */
  lemma WordOfBytesOf(w: uint64, order: ByteOrder)
    ensures WordOf(BytesOf(w, order), order) == w
  {
    Pow256Eight();
    LeValueOfLeBytes(w, 8);
    if order == BigEndian {
      ReverseReverse(LeBytes(w, 8));
    }
  }

  /** Reading eight bytes as a word and storing it back gives the bytes. */
  lemma BytesOfWordOf(b: seq<byte>, order: ByteOrder)
    requires |b| == 8
    ensures BytesOf(WordOf(b, order), order) == b
  {
    match order
    case LittleEndian =>
      LeBytesOfLeValue(b);
    case BigEndian =>
      LeBytesOfLeValue(Reverse(b));
      ReverseReverse(b);
  }

  /** Reads storage as consecutive 64-bit words: word `i` is made of bytes
      `8i .. 8i+7`, in host byte order. */
  function Pack(mem: seq<byte>, order: ByteOrder): (ws: seq<uint64>)
    requires |mem| % 8 == 0
    ensures |ws| == |mem| / 8
    ensures forall i :: 0 <= i < |ws| ==> ws[i] == WordOf(mem[8 * i .. 8 * i + 8], order)
  {
    if |mem| == 0 then []
    else
      var rest := Pack(mem[8..], order);
      assert forall i :: 1 <= i <= |rest| ==> mem[8 * i .. 8 * i + 8] == mem[8..][8 * (i - 1) .. 8 * (i - 1) + 8];
      [WordOf(mem[..8], order)] + rest
  }

  /** Writes words back to storage, the inverse of `Pack`. */
  function Unpack(ws: seq<uint64>, order: ByteOrder): (mem: seq<byte>)
    ensures |mem| == 8 * |ws|
  {
    if |ws| == 0 then [] else BytesOf(ws[0], order) + Unpack(ws[1..], order)
  }

  lemma {:induction false} UnpackPack(mem: seq<byte>, order: ByteOrder)
    requires |mem| % 8 == 0
    ensures Unpack(Pack(mem, order), order) == mem
  {
    if |mem| > 0 {
      var ws := Pack(mem, order);
      assert ws[1..] == Pack(mem[8..], order);
      BytesOfWordOf(mem[..8], order);
      UnpackPack(mem[8..], order);
      assert mem == mem[..8] + mem[8..];
    }
  }

  lemma {:induction false} PackUnpack(ws: seq<uint64>, order: ByteOrder)
    ensures Pack(Unpack(ws, order), order) == ws
  {
    if |ws| > 0 {
      var mem := Unpack(ws, order);
      assert mem[..8] == BytesOf(ws[0], order);
      assert mem[8..] == Unpack(ws[1..], order);
      WordOfBytesOf(ws[0], order);
      PackUnpack(ws[1..], order);
    }
  }

  // ---------------------------------------------------------------------------
  // The union
  // ---------------------------------------------------------------------------

  /** The words `u.bits` holds after `u.fp = src`: the `real_t` storage
      followed by `tail`, whatever the union's remaining bytes happened to
      hold. The tail is a parameter so that nothing is assumed about it. */
  function UnionBits(host: HostConfig, src: seq<byte>, tail: seq<byte>): (bits: seq<uint64>)
    requires |src| == host.realSize
    requires |tail| == TailLength(host.realSize)
    ensures |bits| == WordCount(host.realSize)
    ensures Unpack(bits, host.order)[..host.realSize] == src
  {
    var mem := src + tail;
    UnpackPack(mem, host.order);
    Pack(mem, host.order)
  }

  /** A wide `real_t` always fills at least the two words APInt reads. */
  lemma WideRealHasTwoWords(realSize: nat)
    requires realSize > 8
    ensures WordCount(realSize) >= 2
  {
  }

  /** The words that depend only on `real_t` storage, and not on the unwritten
      tail, are all but (possibly) the last. */
  lemma {:induction false} UnionBitsIgnoreTailInFullWords(host: HostConfig, src: seq<byte>, t1: seq<byte>, t2: seq<byte>, i: nat)
    requires |src| == host.realSize
    requires |t1| == TailLength(host.realSize) && |t2| == TailLength(host.realSize)
    requires i < host.realSize / 8
    ensures UnionBits(host, src, t1)[i] == UnionBits(host, src, t2)[i]
  {
    var m1, m2 := src + t1, src + t2;
    assert m1[8 * i .. 8 * i + 8] == src[8 * i .. 8 * i + 8] == m2[8 * i .. 8 * i + 8];
  }

  // ---------------------------------------------------------------------------
  // The bridge
  // ---------------------------------------------------------------------------

  /** `CTFloat::toAPFloat(src, dst)`: the value it leaves in `dst`, or the
      abort it ends in. `toDouble` stands for `static_cast<double>`. */
  function ToAPFloat<D>(host: HostConfig, src: seq<byte>, tail: seq<byte>, toDouble: seq<byte> -> D): (r: Outcome<APFloat<D>>)
    requires |src| == host.realSize
    requires |tail| == TailLength(host.realSize)
    // a double-sized real_t is converted by value, before any architecture test
    ensures host.realSize == 8 ==> r == Done(Binary64(toDouble(src)))
    ensures r.Done? && r.value.Binary64? <==> host.realSize == 8
    // the size assertion
    ensures host.realSize < 8 <==> r == Fatal(RealNarrowerThanDouble)
    // a wide real_t on an unknown host is unreachable
    ensures host.realSize > 8 && host.arch == OtherArch <==> r == Fatal(UnknownHostReal)
    // on a known host the two words APInt reads are the first sixteen storage bytes, unchanged
    ensures host.realSize > 8 && host.arch != OtherArch ==>
              r.Done? && r.value.Tagged? && |r.value.words| == 2
              && Unpack(r.value.words, host.order) == (src + tail)[..16]
    ensures host.realSize > 8 && host.arch != OtherArch ==>
              r.value.words == UnionBits(host, src, tail)[..2]
    ensures host.realSize > 8 && host.arch == X86 ==>
              r.Done? && r.value.format == X87DoubleExtended && r.value.bitWidth == 80
    ensures host.realSize > 8 && host.arch == AArch64 ==>
              r.Done? && r.value.format == IEEEquad && r.value.bitWidth == 128
    ensures host.realSize > 8 && host.arch == PPC ==>
              r.Done? && r.value.format == PPCDoubleDouble && r.value.bitWidth == 128
    // an APInt never has more bits than the words it is built from
    ensures r.Done? && r.value.Tagged? ==> r.value.bitWidth <= 64 * |r.value.words|
  {
    if host.realSize == 8 then
      Done(Binary64(toDouble(src)))
    else if host.realSize < 8 then
      Fatal(RealNarrowerThanDouble)
    else
      var bits := UnionBits(host, src, tail);
      var first := bits[..2];
      assert Unpack(first, host.order) == (src + tail)[..16] by {
        UnpackPrefix(bits, 2, host.order);
        UnpackPack(src + tail, host.order);
      }
      match host.arch
      case X86 => Done(Tagged(X87DoubleExtended, 80, first))
      case AArch64 => Done(Tagged(IEEEquad, 128, first))
      case PPC => Done(Tagged(PPCDoubleDouble, 128, first))
      case OtherArch => Fatal(UnknownHostReal)
  }

  /** Writing the first `k` words gives the first `8k` bytes of writing all of them. */
  lemma {:induction false} UnpackPrefix(ws: seq<uint64>, k: nat, order: ByteOrder)
    requires k <= |ws|
    ensures Unpack(ws[..k], order) == Unpack(ws, order)[..8 * k]
  {
    if k > 0 {
      assert ws[..k][1..] == ws[1..][..k - 1];
      UnpackPrefix(ws[1..], k - 1, order);
    }
  }

  /** On a 32-bit x86 host `real_t` takes 12 bytes, so the second union
      word, which is among the words handed to APInt, carries four bytes the
      union never wrote: two calls with the same value can hand APInt
      different words. Nothing may assume those bytes are zero. */
  lemma UnwrittenTailReachesUnionWords(toDouble: seq<byte> -> int)
    ensures var host := HostConfig(12, X86, LittleEndian);
            var src: seq<byte> := [0, 0, 0, 0, 0, 0, 0, 0, 0, 0, 0, 0];
            && UnionBits(host, src, [0, 0, 0, 0])[1] != UnionBits(host, src, [1, 0, 0, 0])[1]
            && ToAPFloat(host, src, [0, 0, 0, 0], toDouble).value.words
               != ToAPFloat(host, src, [1, 0, 0, 0], toDouble).value.words
  {
    var host := HostConfig(12, X86, LittleEndian);
    var src: seq<byte> := [0, 0, 0, 0, 0, 0, 0, 0, 0, 0, 0, 0];
    var m0: seq<byte> := src + [0, 0, 0, 0];
    var m1: seq<byte> := src + [1, 0, 0, 0];
    assert m0[12] == 0 && m1[12] == 1;
    assert m0[8..16] != m1[8..16] by {
      assert m0[8..16][4] != m1[8..16][4];
    }
    var b0 := UnionBits(host, src, [0, 0, 0, 0]);
    var b1 := UnionBits(host, src, [1, 0, 0, 0]);
    assert b0[1] == WordOf(m0[8..16], LittleEndian);
    assert b1[1] == WordOf(m1[8..16], LittleEndian);
    BytesOfWordOf(m0[8..16], LittleEndian);
    BytesOfWordOf(m1[8..16], LittleEndian);
    var r0 := ToAPFloat(host, src, [0, 0, 0, 0], toDouble);
    var r1 := ToAPFloat(host, src, [1, 0, 0, 0], toDouble);
    assert r0.value.words[1] == b0[1] && r1.value.words[1] == b1[1];
  }
}
