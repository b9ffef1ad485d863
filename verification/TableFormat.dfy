/** Pieces of the table file format (table/format.cc): block handles, block trailers and the footer. */
module TableFormat {
  import opened Wrappers
  import opened Coding
  import Crc32c

  datatype Handle = Handle(offset: nat, size: nat) {
    predicate Fits() {
      offset < TWO64 && size < TWO64
    }

    function Encode(): Bytes {
      Varint(offset) + Varint(size)
    }
  }

  function DecodeHandle(input: Bytes): Option<(Handle, Bytes)> {
    match GetVarint64(input)
    case None => None
    case Some(a) =>
      match GetVarint64(a.1)
      case None => None
      case Some(b) => Some((Handle(a.0, b.0), b.1))
  }

  lemma {:induction false} HandleRoundTrip(h: Handle, tail: Bytes)
    requires h.Fits()
    ensures DecodeHandle(h.Encode() + tail) == Some((h, tail))
  {
    assert h.Encode() + tail == Varint(h.offset) + (Varint(h.size) + tail);
    GetVarint64Of(h.offset, Varint(h.size) + tail);
    GetVarint64Of(h.size, tail);
  }

  lemma {:induction false} VarintSize(v: nat, n: nat)
    requires n > 0 && v < Pow128(n)
    ensures |Varint(v)| <= n
  {
    if v >= 128 {
      assert Pow128(0) == 1;
      VarintSize(v / 128, n - 1);
    }
  }

  // ---------- blocks in a file ----------

  const TRAILER: nat := 5

  /** A block as it is written: contents, type (no compression), checksum. */
  function RawBlock(contents: Bytes): (r: Bytes)
    ensures |r| == |contents| + TRAILER
  {
    contents + ([0] + Fixed(Crc32c.Mask(Crc32c.Value(contents + [0])), 4))
  }

  ghost predicate Stores(file: Bytes, h: Handle, contents: Bytes) {
    h.size == |contents| && h.offset + h.size + TRAILER <= |file|
    && file[h.offset..h.offset + h.size + TRAILER] == RawBlock(contents)
  }

  lemma {:induction false} StoresPrefix(file: Bytes, more: Bytes, h: Handle, contents: Bytes)
    requires Stores(file, h, contents)
    ensures Stores(file + more, h, contents)
  {
  }

  /** An uncompressed block is there, with the checksum of its contents and type. */
  ghost predicate IsBlock(file: Bytes, h: Handle) {
    var end := h.offset + h.size;
    && end + TRAILER <= |file| && file[end] == 0
    && Crc32c.Unmask(Unfixed(file[end + 1..end + TRAILER])) == Crc32c.Value(file[h.offset..end + 1])
  }

  ghost predicate AcceptsBlock(file: Bytes, verifyChecksums: bool, h: Handle) {
    var end := h.offset + h.size;
    if verifyChecksums then IsBlock(file, h) else end + TRAILER <= |file| && file[end] == 0
  }

  /** The contents of the block that a handle names; with checksums on, of an intact one. */
  ghost function BlockAt(file: Bytes, verifyChecksums: bool, h: Handle): Option<Bytes> {
    if !AcceptsBlock(file, verifyChecksums, h) then None
    else Some(file[h.offset..h.offset + h.size])
  }

  lemma {:induction false} StoresIsAt(file: Bytes, h: Handle, contents: Bytes, verifyChecksums: bool)
    requires Stores(file, h, contents)
    ensures BlockAt(file, verifyChecksums, h) == Some(contents)
  {
    hide RawBlock, Crc32c.Value, Crc32c.Unmask;
    var n := h.size;
    var data := file[h.offset..h.offset + n + TRAILER];
    RawParts(contents, data);
    assert data[n + 1..] == file[h.offset + n + 1..h.offset + n + TRAILER];
    assert data[..n + 1] == file[h.offset..h.offset + n + 1] && data[n] == file[h.offset + n];
    assert data[..n] == file[h.offset..h.offset + n];
  }

  /** ReadBlock: with checksums on it accepts exactly the intact blocks. */
  method ReadBlock(file: Bytes, verifyChecksums: bool, h: Handle, ghost contents: Bytes) returns (r: Option<Bytes>)
    ensures Stores(file, h, contents) ==> r == Some(contents)
    ensures r == BlockAt(file, verifyChecksums, h)
  {
    hide Crc32c.Value, Crc32c.Mask, Crc32c.Unmask;
    ghost var clean := Stores(file, h, contents);
    var n := h.size;
    if h.offset + n + TRAILER > |file| {
      return None;
    }
    var data := file[h.offset..h.offset + n + TRAILER];
    if clean {
      RawParts(contents, data);
    }
    assert data[n + 1..] == file[h.offset + n + 1..h.offset + n + TRAILER];
    assert data[..n + 1] == file[h.offset..h.offset + n + 1] && data[n] == file[h.offset + n];
    assert data[..n] == file[h.offset..h.offset + n];
    if verifyChecksums {
      var crc := Crc32c.Unmask(Unfixed(data[n + 1..]));
      var actual := Crc32c.ComputeValue(data[..n + 1], h.offset);
      if actual != crc {
        return None;
      }
    }
    // Only uncompressed blocks are modelled.
    if data[n] != 0 {
      return None;
    }
    r := Some(data[..n]);
  }

  lemma {:induction false} RawParts(contents: Bytes, data: Bytes)
    requires data == RawBlock(contents)
    ensures var n := |contents|;
            && data[..n] == contents && data[n] == 0
            && Crc32c.Unmask(Unfixed(data[n + 1..])) == Crc32c.Value(data[..n + 1])
  {
    hide Crc32c.Value, Crc32c.Mask, Crc32c.Unmask, Fixed, Unfixed;
    var sum := Crc32c.Value(contents + [0]);
    assert data[..|contents| + 1] == contents + [0];
    assert data[|contents| + 1..] == Fixed(Crc32c.Mask(sum), 4);
    PowersOf256();
    FixedRoundTrip(Crc32c.Mask(sum), 4);
    Crc32c.UnmaskMask(sum);
  }

  // ---------- the footer ----------

  const MAGIC: nat := 0xdb47_7524_8b80_fb57
  const FOOTER: nat := 48

  function Footer(meta: Handle, index: Handle): (r: Bytes)
    ensures |r| == FOOTER
  {
    var handles := meta.Encode() + index.Encode();
    (if |handles| <= 40 then handles + seq(40 - |handles|, _ => 0) else handles[..40]) + Fixed(MAGIC, 8)
  }

  /** Footer::DecodeFrom, from the last FOOTER bytes of the file. */
  function DecodeFooter(input: Bytes): Option<(Handle, Handle)>
    requires |input| == FOOTER
  {
    if Unfixed(input[40..]) != MAGIC then None
    else
      match DecodeHandle(input)
      case None => None
      case Some(meta) =>
        match DecodeHandle(meta.1)
        case None => None
        case Some(index) => Some((meta.0, index.0))
  }

  lemma {:induction false} FooterRoundTrip(meta: Handle, index: Handle)
    requires meta.Fits() && index.Fits()
    ensures |Footer(meta, index)| == FOOTER && DecodeFooter(Footer(meta, index)) == Some((meta, index))
  {
    PowersOf128();
    VarintSize(meta.offset, 10);
    VarintSize(meta.size, 10);
    VarintSize(index.offset, 10);
    VarintSize(index.size, 10);
    var handles := meta.Encode() + index.Encode();
    var footer, padding := Footer(meta, index), seq(40 - |handles|, _ => 0) + Fixed(MAGIC, 8);
    FooterParts(meta, index, footer, padding);
  }

  lemma {:induction false} FooterParts(meta: Handle, index: Handle, footer: Bytes, padding: Bytes)
    requires meta.Fits() && index.Fits() && |meta.Encode() + index.Encode()| <= 40
    requires padding == seq(40 - |meta.Encode() + index.Encode()|, _ => 0) + Fixed(MAGIC, 8)
             && footer == Footer(meta, index)
    ensures |footer| == FOOTER && DecodeFooter(footer) == Some((meta, index))
  {
    hide Fixed, Unfixed, DecodeHandle, Handle.Encode;
    assert footer == meta.Encode() + (index.Encode() + padding);
    HandleRoundTrip(meta, index.Encode() + padding);
    HandleRoundTrip(index, padding);
    assert footer[40..] == Fixed(MAGIC, 8);
    PowersOf256();
    FixedRoundTrip(MAGIC, 8);
  }
}
