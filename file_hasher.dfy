/**
  * The fingerprinting half of the deduplicator: the Hamming distance used to
  * compare two fingerprints, the visual difference hash ("dhash") computed from
  * an already grey-scaled and resized pixel grid, and the choice between that
  * hash and a content digest.
  */
module FileHasher {
  import opened HexFormat

  /** What the distance reports for two strings of different lengths. */
  const LengthMismatchDistance: nat := 9999

  /** The dhash grid is DefaultHashSize rows of DefaultHashSize + 1 pixels. */
  const DefaultHashSize: nat := 8

  // ---------------------------------------------------------------------------
  // Hamming distance
  // ---------------------------------------------------------------------------

  /** The number of positions at which two equal-length strings differ. */
  function Mismatches(s1: string, s2: string): (n: nat)
    requires |s1| == |s2|
    ensures n <= |s1|
  {
    if |s1| == 0 then 0
    else
      var last := if s1[|s1| - 1] != s2[|s2| - 1] then 1 else 0;
      Mismatches(s1[..|s1| - 1], s2[..|s2| - 1]) + last
  }

  /** `FileHasher.hamming_distance`: the sentinel for strings of different lengths, else the count of differing positions. */
  function HammingDistance(s1: string, s2: string): (d: nat)
    ensures |s1| != |s2| ==> d == LengthMismatchDistance
    ensures |s1| == |s2| ==> d <= |s1|
  {
    if |s1| != |s2| then LengthMismatchDistance else Mismatches(s1, s2)
  }

  /** The positions at which two strings differ: an independent reading of the distance. */
  function DifferingPositions(s1: string, s2: string): set<nat>
    requires |s1| == |s2|
  {
    set i: nat | i < |s1| && s1[i] != s2[i]
  }

  lemma {:induction false} MismatchesSymmetric(s1: string, s2: string)
    requires |s1| == |s2|
    ensures Mismatches(s1, s2) == Mismatches(s2, s1)
  {
    if |s1| > 0 {
      MismatchesSymmetric(s1[..|s1| - 1], s2[..|s2| - 1]);
    }
  }

  lemma HammingDistanceSymmetric(s1: string, s2: string)
    ensures HammingDistance(s1, s2) == HammingDistance(s2, s1)
  {
    if |s1| == |s2| {
      MismatchesSymmetric(s1, s2);
    }
  }

  lemma {:induction false} MismatchesZeroIffEqual(s1: string, s2: string)
    requires |s1| == |s2|
    ensures Mismatches(s1, s2) == 0 <==> s1 == s2
  {
    if |s1| > 0 {
      var n := |s1| - 1;
      MismatchesZeroIffEqual(s1[..n], s2[..n]);
      assert s1 == s1[..n] + [s1[n]] && s2 == s2[..n] + [s2[n]];
    }
  }

  /** A string is at distance 0 exactly from itself, whatever the lengths. */
  lemma HammingDistanceZeroIffEqual(s1: string, s2: string)
    ensures HammingDistance(s1, s2) == 0 <==> s1 == s2
  {
    if |s1| == |s2| {
      MismatchesZeroIffEqual(s1, s2);
    }
  }

  /** For equal lengths, the distance is the number of differing positions. */
  lemma {:induction false} HammingDistanceCountsPositions(s1: string, s2: string)
    requires |s1| == |s2|
    ensures HammingDistance(s1, s2) == |DifferingPositions(s1, s2)|
  {
    if |s1| > 0 {
      var n := |s1| - 1;
      HammingDistanceCountsPositions(s1[..n], s2[..n]);
      var before := DifferingPositions(s1[..n], s2[..n]);
      if s1[n] != s2[n] {
        assert DifferingPositions(s1, s2) == before + {n};
      } else {
        assert DifferingPositions(s1, s2) == before;
      }
    } else {
      assert DifferingPositions(s1, s2) == {};
    }
  }

  // ---------------------------------------------------------------------------
  // Difference hash
  // ---------------------------------------------------------------------------

  /** Grey levels, row by row: pixels[row][col] is `getpixel((col, row))`. */
  type Grid = seq<seq<int>>

  /** The shape `resize((hashSize + 1, hashSize))` produces: hashSize rows of hashSize + 1 columns. */
  predicate IsResized(pixels: Grid, hashSize: nat) {
    |pixels| == hashSize && forall row :: 0 <= row < |pixels| ==> |pixels[row]| == hashSize + 1
  }

  /** One row's "left pixel is brighter than its right neighbour" bits. */
  function RowDifferences(row: seq<int>, hashSize: nat): (bits: seq<bool>)
    requires |row| == hashSize + 1
  {
    seq(hashSize, col requires 0 <= col < hashSize => row[col] > row[col + 1])
  }

  /** The comparison bits of the first `rows` rows, in row-major order. */
  function Differences(pixels: Grid, hashSize: nat, rows: nat): (bits: seq<bool>)
    requires IsResized(pixels, hashSize) && rows <= hashSize
  {
    if rows == 0 then []
    else Differences(pixels, hashSize, rows - 1) + RowDifferences(pixels[rows - 1], hashSize)
  }

  /** One bit per pixel pair: hashSize bits for each row. */
  lemma {:induction false} DifferencesLength(pixels: Grid, hashSize: nat, rows: nat)
    requires IsResized(pixels, hashSize) && rows <= hashSize
    ensures |Differences(pixels, hashSize, rows)| == rows * hashSize
  {
    if rows > 0 {
      DifferencesLength(pixels, hashSize, rows - 1);
    }
  }

  /** 2^k for the exponents `2 ** (index % 8)` can take, and 2^8. */
  const Powers: seq<nat> := [1, 2, 4, 8, 16, 32, 64, 128, 256]

  /** The sum of 2^i over the set bits start + i, i < width, of one byte: bit 0 is the least significant. */
  function PartialByte(bits: seq<bool>, start: nat, width: nat): (weight: nat)
    requires width <= 8 && start + width <= |bits|
  {
    if width == 0 then 0
    else PartialByte(bits, start, width - 1) + (if bits[start + width - 1] then Powers[width - 1] else 0)
  }

  /** `width` bits weigh less than 2^width. */
  lemma {:induction false} PartialByteBound(bits: seq<bool>, start: nat, width: nat)
    requires width <= 8 && start + width <= |bits|
    ensures PartialByte(bits, start, width) < Powers[width]
  {
    if width > 0 {
      PartialByteBound(bits, start, width - 1);
    }
  }

  /** Byte k of the packed hash: bits 8k .. 8k+7, least significant first. */
  function ByteAt(bits: seq<bool>, k: nat): (b: Byte)
    requires 8 * k + 8 <= |bits|
  {
    PartialByteBound(bits, 8 * k, 8);
    PartialByte(bits, 8 * k, 8)
  }

  /** The first `count` complete bytes of `bits`. */
  function PackedBytes(bits: seq<bool>, count: nat): (bytes: seq<Byte>)
    requires 8 * count <= |bits|
    ensures |bytes| == count
    ensures forall k :: 0 <= k < count ==> bytes[k] == ByteAt(bits, k)
  {
    if count == 0 then [] else PackedBytes(bits, count - 1) + [ByteAt(bits, count - 1)]
  }

  /** The bytes written out two digits each, in order. */
  function HexString(bytes: seq<Byte>): (hex: string) {
    if |bytes| == 0 then "" else HexString(bytes[..|bytes| - 1]) + ByteDigits(bytes[|bytes| - 1])
  }

  /** Packs every complete group of 8 bits; a trailing incomplete group is dropped. */
  function PackBits(bits: seq<bool>): (hex: string)
    ensures |hex| == 2 * (|bits| / 8) && AllHexDigits(hex)
    ensures DecodeHash(hex) == bits[..8 * (|bits| / 8)]
  {
    DecodePackedBytes(bits, |bits| / 8);
    HexString(PackedBytes(bits, |bits| / 8))
  }

  /** `FileHasher._dhash` after the resize: the packed comparison bits of the whole grid. */
  function DHash(pixels: Grid, hashSize: nat): (hash: string)
    requires IsResized(pixels, hashSize)
    ensures |hash| == 2 * (hashSize * hashSize / 8) && AllHexDigits(hash)
    ensures var bits := Differences(pixels, hashSize, hashSize);
      DecodeHash(hash) == bits[..8 * (|bits| / 8)]
  {
    DifferencesLength(pixels, hashSize, hashSize);
    PackBits(Differences(pixels, hashSize, hashSize))
  }

  /** `FileHasher._dhash` from the resize on: compare neighbours, then pack the bits. */
  method ComputeDHash(pixels: Grid, hashSize: nat) returns (hexString: string)
    requires IsResized(pixels, hashSize)
    ensures hexString == DHash(pixels, hashSize)
  {
    var difference := CompareNeighbours(pixels, hashSize);
    hexString := PackDifferences(difference);
  }

  /** The two nested loops of `_dhash`: one "left > right" bit per pixel pair, row by row. */
  method CompareNeighbours(pixels: Grid, hashSize: nat) returns (difference: seq<bool>)
    requires IsResized(pixels, hashSize)
    ensures difference == Differences(pixels, hashSize, hashSize)
  {
    difference := [];
    for row := 0 to hashSize
      invariant difference == Differences(pixels, hashSize, row)
    {
      for col := 0 to hashSize
        invariant difference == Differences(pixels, hashSize, row) + RowDifferences(pixels[row], hashSize)[..col]
      {
        var pixelLeft := pixels[row][col];
        var pixelRight := pixels[row][col + 1];
        difference := difference + [pixelLeft > pixelRight];
      }
    }
  }

  /** The packing loop of `_dhash`: add 2^(index % 8) for each set bit and emit a byte after every eighth bit. */
  method PackDifferences(difference: seq<bool>) returns (hexString: string)
    ensures hexString == PackBits(difference)
  {
    var decimalValue: nat := 0;
    hexString := "";
    ghost var count: nat, offset: nat := 0, 0;
    for index := 0 to |difference|
      invariant index == 8 * count + offset && offset < 8
      invariant hexString == HexString(PackedBytes(difference, count))
      invariant decimalValue == PartialByte(difference, 8 * count, offset)
    {
      SplitByEight(index, count, offset);
      ghost var next := PartialByte(difference, 8 * count, offset + 1);
      if difference[index] {
        decimalValue := decimalValue + Powers[index % 8];
      }
      assert decimalValue == next;
      if index % 8 == 7 {
        EmitByte(difference, count, decimalValue);
        hexString := hexString + HexByte(decimalValue);
        decimalValue := 0;
        count, offset := count + 1, 0;
      } else {
        offset := offset + 1;
      }
    }
    SplitByEight(|difference|, count, offset);
  }

  lemma SplitByEight(index: nat, count: nat, offset: nat)
    requires index == 8 * count + offset && offset < 8
    ensures index / 8 == count && index % 8 == offset
  {
  }

  /** Emitting the complete byte `count`, whatever way its value was summed, appends its two hex digits. */
  lemma EmitByte(bits: seq<bool>, count: nat, value: nat)
    requires 8 * count + 8 <= |bits| && value == PartialByte(bits, 8 * count, 8)
    ensures HexString(PackedBytes(bits, count + 1)) == HexString(PackedBytes(bits, count)) + HexByte(value)
  {
    PackedBytesStep(bits, count + 1);
    HexByteDigits(ByteAt(bits, count));
  }

  /** Packing one more byte appends its two digits. */
  lemma PackedBytesStep(bits: seq<bool>, count: nat)
    requires 0 < count && 8 * count <= |bits|
    ensures HexString(PackedBytes(bits, count)) == HexString(PackedBytes(bits, count - 1)) + ByteDigits(ByteAt(bits, count - 1))
  {
    assert PackedBytes(bits, count)[..count - 1] == PackedBytes(bits, count - 1);
  }

  // ---------------------------------------------------------------------------
  // Reading a difference hash back
  // ---------------------------------------------------------------------------

  /** The low `width` bits of v, least significant first. */
  function UnpackBits(v: nat, width: nat): (bits: seq<bool>)
    ensures |bits| == width
  {
    if width == 0 then [] else [v % 2 == 1] + UnpackBits(v / 2, width - 1)
  }

  /** The bits a hex string encodes, two digits per byte, each byte least significant bit first; an odd leading digit is ignored. */
  function DecodeHash(hexString: string): (bits: seq<bool>)
    requires AllHexDigits(hexString)
  {
    if |hexString| < 2 then []
    else
      var n := |hexString| - 2;
      DecodeHash(hexString[..n]) + UnpackBits(ParseHexByte(hexString[n..]), 8)
  }

  /** The same weight, summed from the first bit on: the shape UnpackBits inverts. */
  function LowFirstWeight(bits: seq<bool>): nat {
    if |bits| == 0 then 0 else (if bits[0] then 1 else 0) + 2 * LowFirstWeight(bits[1..])
  }

  lemma {:induction false} LowFirstWeightAppend(bits: seq<bool>, b: bool)
    requires |bits| < 8
    ensures LowFirstWeight(bits + [b]) == LowFirstWeight(bits) + (if b then Powers[|bits|] else 0)
  {
    if |bits| > 0 {
      assert (bits + [b])[1..] == bits[1..] + [b];
      LowFirstWeightAppend(bits[1..], b);
    }
  }

  lemma {:induction false} PartialByteIsLowFirstWeight(bits: seq<bool>, start: nat, width: nat)
    requires width <= 8 && start + width <= |bits|
    ensures PartialByte(bits, start, width) == LowFirstWeight(bits[start .. start + width])
  {
    if width > 0 {
      var n := start + width - 1;
      PartialByteIsLowFirstWeight(bits, start, width - 1);
      LowFirstWeightAppend(bits[start .. n], bits[n]);
      assert bits[start .. n] + [bits[n]] == bits[start .. start + width];
    }
  }

  lemma {:induction false} UnpackLowFirstWeight(bits: seq<bool>)
    ensures UnpackBits(LowFirstWeight(bits), |bits|) == bits
  {
    if |bits| > 0 {
      var rest := LowFirstWeight(bits[1..]);
      HalveBit(bits[0], rest);
      UnpackLowFirstWeight(bits[1..]);
      assert bits == [bits[0]] + bits[1..];
    }
  }

  lemma HalveBit(b: bool, rest: nat)
    ensures ((if b then 1 else 0) + 2 * rest) % 2 == 1 <==> b
    ensures ((if b then 1 else 0) + 2 * rest) / 2 == rest
  {
  }

  /** Unpacking byte k gives back bits 8k .. 8k+7: packing loses nothing within a complete byte. */
  lemma UnpackByteAt(bits: seq<bool>, k: nat)
    requires 8 * k + 8 <= |bits|
    ensures UnpackBits(ByteAt(bits, k), 8) == bits[8 * k .. 8 * k + 8]
  {
    PartialByteIsLowFirstWeight(bits, 8 * k, 8);
    UnpackLowFirstWeight(bits[8 * k .. 8 * k + 8]);
  }

  /** Each byte is written as two lowercase hex digits, byte k at characters 2k and 2k+1. */
  lemma {:induction false} HexStringShape(bytes: seq<Byte>)
    ensures |HexString(bytes)| == 2 * |bytes| && AllHexDigits(HexString(bytes))
    ensures forall k :: 0 <= k < |bytes| ==> HexString(bytes)[2 * k .. 2 * k + 2] == ByteDigits(bytes[k])
  {
    if |bytes| > 0 {
      var n := |bytes| - 1;
      HexStringShape(bytes[..n]);
      var prefix, last := HexString(bytes[..n]), ByteDigits(bytes[n]);
      var s := HexString(bytes);
      assert s == prefix + last;
      forall k | 0 <= k < |bytes|
        ensures s[2 * k .. 2 * k + 2] == ByteDigits(bytes[k])
      {
        if k < n {
          PrefixSlice(prefix, last, 2 * k, 2 * k + 2);
        } else {
          assert s[2 * k .. 2 * k + 2] == last;
        }
      }
    }
  }

  lemma PrefixSlice(a: string, b: string, i: nat, j: nat)
    requires i <= j <= |a|
    ensures (a + b)[i..j] == a[i..j]
  {
  }

  /** Appending the digits of one byte appends that byte's eight bits to the decoding. */
  lemma DecodeAppendByte(prefix: string, b: Byte)
    requires AllHexDigits(prefix)
    ensures AllHexDigits(prefix + ByteDigits(b))
    ensures DecodeHash(prefix + ByteDigits(b)) == DecodeHash(prefix) + UnpackBits(b, 8)
  {
    var s := prefix + ByteDigits(b);
    assert s[..|prefix|] == prefix;
    assert s[|prefix|..] == ByteDigits(b);
    ParseByteDigits(b);
  }

  lemma SliceJoin(bits: seq<bool>, i: nat, j: nat)
    requires i <= j <= |bits|
    ensures bits[..i] + bits[i..j] == bits[..j]
  {
  }

  /** The bits of a byte sequence, each byte least significant bit first. */
  function UnpackAll(bytes: seq<Byte>): seq<bool> {
    if |bytes| == 0 then [] else UnpackAll(bytes[..|bytes| - 1]) + UnpackBits(bytes[|bytes| - 1], 8)
  }

  /** Decoding the written bytes gives the bits of those bytes. */
  lemma {:induction false} DecodeHexString(bytes: seq<Byte>)
    ensures AllHexDigits(HexString(bytes)) && DecodeHash(HexString(bytes)) == UnpackAll(bytes)
  {
    if |bytes| > 0 {
      var n := |bytes| - 1;
      DecodeHexString(bytes[..n]);
      DecodeAppendByte(HexString(bytes[..n]), bytes[n]);
    }
  }

  /** Unpacking the first `count` packed bytes gives back the first 8 * count bits. */
  lemma {:induction false} UnpackPackedBytes(bits: seq<bool>, count: nat)
    requires 8 * count <= |bits|
    ensures UnpackAll(PackedBytes(bits, count)) == bits[..8 * count]
  {
    if count > 0 {
      var m := count - 1;
      UnpackPackedBytes(bits, m);
      assert PackedBytes(bits, count)[..m] == PackedBytes(bits, m);
      UnpackByteAt(bits, m);
      SliceJoin(bits, 8 * m, 8 * count);
    }
  }

  /** Decoding the first `count` packed bytes gives back the first 8 * count bits. */
  lemma DecodePackedBytes(bits: seq<bool>, count: nat)
    requires 8 * count <= |bits|
    ensures |HexString(PackedBytes(bits, count))| == 2 * count
    ensures AllHexDigits(HexString(PackedBytes(bits, count)))
    ensures DecodeHash(HexString(PackedBytes(bits, count))) == bits[..8 * count]
  {
    HexStringShape(PackedBytes(bits, count));
    DecodeHexString(PackedBytes(bits, count));
    UnpackPackedBytes(bits, count);
  }

  /** Bit row * hashSize + col of the hash is "pixel (col, row) is brighter than pixel (col + 1, row)". */
  lemma {:induction false} DifferenceAt(pixels: Grid, hashSize: nat, rows: nat, row: nat, col: nat)
    requires IsResized(pixels, hashSize) && rows <= hashSize
    requires row < rows && col < hashSize
    ensures row * hashSize + col < |Differences(pixels, hashSize, rows)|
    ensures Differences(pixels, hashSize, rows)[row * hashSize + col] == (pixels[row][col] > pixels[row][col + 1])
  {
    var before := Differences(pixels, hashSize, rows - 1);
    DifferencesLength(pixels, hashSize, rows - 1);
    if row < rows - 1 {
      DifferenceAt(pixels, hashSize, rows - 1, row, col);
    } else {
      assert row * hashSize == |before|;
    }
  }

  /** Packing writes two hex digits per complete byte and decodes back to the bits of those bytes. */
  lemma PackBitsRoundTrip(bits: seq<bool>)
    ensures |PackBits(bits)| == 2 * (|bits| / 8) && AllHexDigits(PackBits(bits))
    ensures DecodeHash(PackBits(bits)) == bits[..8 * (|bits| / 8)]
  {
    DecodePackedBytes(bits, |bits| / 8);
  }

  /** Every bit of a complete byte reads back unchanged. */
  lemma PackedBitAt(bits: seq<bool>, i: nat)
    requires i < 8 * (|bits| / 8)
    ensures AllHexDigits(PackBits(bits))
    ensures i < |DecodeHash(PackBits(bits))| && DecodeHash(PackBits(bits))[i] == bits[i]
  {
    PackBitsRoundTrip(bits);
  }

  /** The hash has two characters per complete byte of comparison bits: 16 for the default size 8. */
  lemma DHashLength(pixels: Grid, hashSize: nat)
    requires IsResized(pixels, hashSize)
    ensures |DHash(pixels, hashSize)| == 2 * (hashSize * hashSize / 8)
    ensures AllHexDigits(DHash(pixels, hashSize))
    ensures hashSize == DefaultHashSize ==> |DHash(pixels, hashSize)| == 16
  {
    var bits := Differences(pixels, hashSize, hashSize);
    DifferencesLength(pixels, hashSize, hashSize);
    PackBitsRoundTrip(bits);
    if hashSize == DefaultHashSize {
      assert hashSize * hashSize == 64;
    }
  }

  /** The hash decodes to the row-major comparison bits, as many as fill complete bytes. */
  lemma DHashRoundTrip(pixels: Grid, hashSize: nat)
    requires IsResized(pixels, hashSize)
    ensures AllHexDigits(DHash(pixels, hashSize))
    ensures var bits := Differences(pixels, hashSize, hashSize);
      DecodeHash(DHash(pixels, hashSize)) == bits[..8 * (|bits| / 8)]
  {
    PackBitsRoundTrip(Differences(pixels, hashSize, hashSize));
  }

  /** Byte k of the hash, read from its two characters, is the sum of 2^(i % 8) over the set bits i in [8k, 8k+8). */
  lemma DHashByteAt(pixels: Grid, hashSize: nat, k: nat)
    requires IsResized(pixels, hashSize)
    requires k < hashSize * hashSize / 8
    ensures |Differences(pixels, hashSize, hashSize)| == hashSize * hashSize
    ensures 2 * k + 2 <= |DHash(pixels, hashSize)|
    ensures DHash(pixels, hashSize)[2 * k .. 2 * k + 2] == ByteDigits(ByteAt(Differences(pixels, hashSize, hashSize), k))
    ensures ParseHexByte(DHash(pixels, hashSize)[2 * k .. 2 * k + 2]) == ByteAt(Differences(pixels, hashSize, hashSize), k)
  {
    var bits := Differences(pixels, hashSize, hashSize);
    DifferencesLength(pixels, hashSize, hashSize);
    var bytes := PackedBytes(bits, |bits| / 8);
    HexStringShape(bytes);
    ParseByteDigits(bytes[k]);
  }

  /** Reading the hash back, bit row * hashSize + col says whether pixel (col, row) is brighter than its right neighbour. */
  lemma DHashBitAt(pixels: Grid, hashSize: nat, row: nat, col: nat)
    requires IsResized(pixels, hashSize)
    requires row < hashSize && col < hashSize
    requires row * hashSize + col < 8 * (hashSize * hashSize / 8)
    ensures AllHexDigits(DHash(pixels, hashSize))
    ensures var i := row * hashSize + col;
      i < |DecodeHash(DHash(pixels, hashSize))| && DecodeHash(DHash(pixels, hashSize))[i] == (pixels[row][col] > pixels[row][col + 1])
  {
    var bits := Differences(pixels, hashSize, hashSize);
    DifferencesLength(pixels, hashSize, hashSize);
    DifferenceAt(pixels, hashSize, hashSize, row, col);
    PackedBitAt(bits, row * hashSize + col);
  }

  /** Every grey level raised by the same amount. */
  function Brighten(pixels: Grid, delta: int): (brighter: Grid)
    ensures |brighter| == |pixels|
    ensures forall row :: 0 <= row < |pixels| ==> |brighter[row]| == |pixels[row]|
    ensures forall row, col :: 0 <= row < |pixels| && 0 <= col < |pixels[row]| ==> brighter[row][col] == pixels[row][col] + delta
  {
    seq(|pixels|, row requires 0 <= row < |pixels| => seq(|pixels[row]|, col requires 0 <= col < |pixels[row]| => pixels[row][col] + delta))
  }

  lemma {:induction false} DifferencesIgnoreBrightness(pixels: Grid, hashSize: nat, rows: nat, delta: int)
    requires IsResized(pixels, hashSize) && rows <= hashSize
    ensures IsResized(Brighten(pixels, delta), hashSize)
    ensures Differences(Brighten(pixels, delta), hashSize, rows) == Differences(pixels, hashSize, rows)
  {
    if rows > 0 {
      DifferencesIgnoreBrightness(pixels, hashSize, rows - 1, delta);
      var brighter := Brighten(pixels, delta);
      assert RowDifferences(brighter[rows - 1], hashSize) == RowDifferences(pixels[rows - 1], hashSize);
    }
  }

  /** A uniform brightness change of the resized grid leaves the hash unchanged. */
  lemma DHashIgnoresBrightness(pixels: Grid, hashSize: nat, delta: int)
    requires IsResized(pixels, hashSize)
    ensures IsResized(Brighten(pixels, delta), hashSize)
    ensures DHash(Brighten(pixels, delta), hashSize) == DHash(pixels, hashSize)
  {
    DifferencesIgnoreBrightness(pixels, hashSize, hashSize, delta);
  }

  // ---------------------------------------------------------------------------
  // Choosing the hash of a file
  // ---------------------------------------------------------------------------

  /** What opening the file as an image found: no image, an animation, or a still image already resized. */
  datatype ImageProbe = NotAnImage | Animated | StillImage(resized: Grid)

  /** The length of a SHA-1 hex digest. */
  const ShaDigestLength: nat := 40

  /** `FileHasher.get_best_hash`: the difference hash of a still image, otherwise the content digest. */
  function BestHash(probe: ImageProbe, shaDigest: string): (hash: string)
    requires probe.StillImage? ==> IsResized(probe.resized, DefaultHashSize)
    ensures probe.StillImage? ==> hash == DHash(probe.resized, DefaultHashSize)
    ensures probe.StillImage? ==> |hash| == 16 && AllHexDigits(hash)
    ensures !probe.StillImage? ==> hash == shaDigest
  {
    match probe
    case StillImage(resized) =>
      DHashLength(resized, DefaultHashSize);
      DHash(resized, DefaultHashSize)
    case _ => shaDigest
  }

  /** The hash of a still image reads back as all 64 comparison bits of its 9 x 8 grid, bit 8 * row + col being "pixel (col, row) is brighter than its right neighbour". */
  lemma StillImageHashDecodes(resized: Grid, shaDigest: string)
    requires IsResized(resized, DefaultHashSize)
    ensures AllHexDigits(BestHash(StillImage(resized), shaDigest))
    ensures DecodeHash(BestHash(StillImage(resized), shaDigest)) == Differences(resized, DefaultHashSize, DefaultHashSize)
    ensures forall row, col :: 0 <= row < DefaultHashSize && 0 <= col < DefaultHashSize ==>
      DecodeHash(BestHash(StillImage(resized), shaDigest))[DefaultHashSize * row + col] == (resized[row][col] > resized[row][col + 1])
  {
    var bits := Differences(resized, DefaultHashSize, DefaultHashSize);
    DifferencesLength(resized, DefaultHashSize, DefaultHashSize);
    assert DefaultHashSize * DefaultHashSize == 64;
    assert bits[..64] == bits;
    forall row, col | 0 <= row < DefaultHashSize && 0 <= col < DefaultHashSize
      ensures bits[DefaultHashSize * row + col] == (resized[row][col] > resized[row][col + 1])
    {
      DifferenceAt(resized, DefaultHashSize, DefaultHashSize, row, col);
      assert DefaultHashSize * row == row * DefaultHashSize;
    }
  }

  /** A still-image hash and a SHA-1 digest are always at the sentinel distance, so they never match. */
  lemma HashFamiliesNeverMatch(resized: Grid, shaDigest: string, otherDigest: string)
    requires IsResized(resized, DefaultHashSize)
    requires |shaDigest| == ShaDigestLength
    ensures HammingDistance(BestHash(StillImage(resized), otherDigest), shaDigest) == LengthMismatchDistance
  {
  }
}
