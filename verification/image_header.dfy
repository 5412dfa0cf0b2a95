/** The header classifier `get_image_type` of autodecrypt/decrypt_img.py.

    The file is an already-read byte sequence. Reading it goes through a
    model of a Python binary file object: a position that `read(n)` advances
    by the number of bytes it actually returned (short or empty at the end of
    the file) and that `seek` may move past the end. */
module ImageHeader {
  import opened Wrappers

  type byte = bv8

  /** The four bytes "3gmI" that open an IMG3 container. */
  const Img3Magic: seq<byte> := [0x33, 0x67, 0x6d, 0x49]

  /** The four bytes "IM4P" found at offset 7 of an IMG4 payload. */
  const Img4Magic: seq<byte> := [0x49, 0x4d, 0x34, 0x50]

  /** The two container formats the classifier recognises. */
  datatype Format = Img3 | Img4 {
    /** The string the source returns as the first element of its tuple. */
    function Name(): string {
      match this
      case Img3 => "img3"
      case Img4 => "img4"
    }
  }

  /** A successful classification: the format and the image-type tag. */
  datatype Header = Header(format: Format, tag: seq<byte>)

  /** An open binary file: its whole content and the current position. */
  datatype FileCursor = FileCursor(data: seq<byte>, pos: nat)

  function Min(a: int, b: int): int {
    if a <= b then a else b
  }

  /** `data[i:j]` with Python's clamping of both ends to the length. */
  function Slice(data: seq<byte>, i: nat, j: nat): (r: seq<byte>)
    ensures i <= j <= |data| ==> r == data[i..j]
    ensures i <= |data| < j ==> r == data[i..]
    ensures |data| <= i || j <= i ==> r == []
  {
    var lo := Min(i, |data|);
    var hi := Min(j, |data|);
    if lo <= hi then data[lo..hi] else []
  }

  /** Python's `s[::-1]`. */
  function Reverse(s: seq<byte>): (r: seq<byte>)
    ensures |r| == |s|
    ensures forall k :: 0 <= k < |s| ==> r[k] == s[|s| - 1 - k]
  {
    if |s| == 0 then [] else Reverse(s[1..]) + [s[0]]
  }

  /** `file.read(n)`: at most `n` bytes from the current position, fewer (or
      none) when the end of the file comes first; the position moves past the
      bytes returned. */
  function Read(c: FileCursor, n: nat): (res: (seq<byte>, FileCursor))
    ensures |res.0| <= n
    ensures res.1.data == c.data
    ensures res.1.pos == c.pos + |res.0|
    ensures res.0 == Slice(c.data, c.pos, c.pos + n)
  {
    if |c.data| <= c.pos then ([], c)
    else
      var end := Min(c.pos + n, |c.data|);
      (c.data[c.pos..end], c.(pos := end))
  }

  /** `file.seek(offset, os.SEEK_CUR)`. */
  function SeekCur(c: FileCursor, offset: nat): FileCursor {
    c.(pos := c.pos + offset)
  }

  /** `file.seek(offset, 0)`. */
  function SeekSet(c: FileCursor, offset: nat): FileCursor {
    c.(pos := offset)
  }

  /** The file starts with the IMG3 magic. */
  predicate HasImg3Magic(data: seq<byte>) {
    |data| >= 4 && data[..4] == Img3Magic
  }

  /** Bytes 7 to 11 hold the IMG4 payload magic. */
  predicate HasImg4Magic(data: seq<byte>) {
    |data| >= 11 && data[7..11] == Img4Magic
  }

  /** `get_image_type` after the file has been opened: read the first four
      bytes; on the IMG3 magic skip 12 bytes and return the next four bytes
      reversed; otherwise read four bytes at offset 7 and, on the IMG4 magic,
      skip 2 bytes and return the next four bytes as they are. The result
      is stated in absolute offsets. */
  function GetImageType(data: seq<byte>): (r: Option<Header>)
    ensures HasImg3Magic(data) ==> r == Some(Header(Img3, Reverse(Slice(data, 16, 20))))
    ensures !HasImg3Magic(data) && HasImg4Magic(data) ==> r == Some(Header(Img4, Slice(data, 13, 17)))
    ensures !HasImg3Magic(data) && !HasImg4Magic(data) ==> r == None
    ensures r.Some? ==> |r.value.tag| <= 4
    ensures r.Some? ==> r.value.format.Name() == (if HasImg3Magic(data) then "img3" else "img4")
  {
    var (magic, c1) := Read(FileCursor(data, 0), 4);
    if magic == Img3Magic then
      var (raw, _) := Read(SeekCur(c1, 12), 4);
      Some(Header(Img3, Reverse(raw)))
    else
      var (magic4, c2) := Read(SeekSet(c1, 7), 4);
      if magic4 != Img4Magic then None
      else
        var (tag, _) := Read(SeekCur(c2, 2), 4);
        Some(Header(Img4, tag))
  }

  /** The IMG3 check comes first: a file with the IMG3 magic is IMG3 even
      when bytes 7 to 11 also read "IM4P". */
  lemma Img3TakesPrecedence(data: seq<byte>)
    requires HasImg3Magic(data) && HasImg4Magic(data)
    ensures GetImageType(data).Some? && GetImageType(data).value.format == Img3
  {
  }

  /** A file that is not IMG3 and has fewer than 11 bytes is not an image. */
  lemma ShortFileIsNotImage(data: seq<byte>)
    requires !HasImg3Magic(data) && |data| < 11
    ensures GetImageType(data) == None
  {
  }

  /** The format is decided by the magic bytes alone, in both directions. */
  lemma FormatIff(data: seq<byte>)
    ensures GetImageType(data).Some? <==> HasImg3Magic(data) || HasImg4Magic(data)
    ensures (GetImageType(data).Some? && GetImageType(data).value.format == Img3) <==> HasImg3Magic(data)
  {
  }

  /** The tag is a full four bytes exactly when the file reaches offset 20
      (IMG3) or offset 17 (IMG4). */
  lemma TagLength(data: seq<byte>)
    requires GetImageType(data).Some?
    ensures GetImageType(data).value.format == Img3 ==> (|GetImageType(data).value.tag| == 4 <==> |data| >= 20)
    ensures GetImageType(data).value.format == Img4 ==> (|GetImageType(data).value.tag| == 4 <==> |data| >= 17)
  {
  }

  lemma {:induction false} ReverseReverse(s: seq<byte>)
    ensures Reverse(Reverse(s)) == s
  {
    var r := Reverse(Reverse(s));
    assert |r| == |s|;
    forall k | 0 <= k < |s|
      ensures r[k] == s[k]
    {
      assert r[k] == Reverse(s)[|s| - 1 - k];
    }
  }

  /** The bytes of an IMG3 container whose header carries `tag`: the magic,
      twelve bytes the classifier skips, the tag stored byte-reversed, and
      whatever follows. */
  function Img3Layout(tag: seq<byte>, skipped: seq<byte>, rest: seq<byte>): seq<byte>
    requires |tag| == 4 && |skipped| == 12
  {
    Img3Magic + skipped + Reverse(tag) + rest
  }

  /** The bytes of an IMG4 payload whose header carries `tag`: seven leading
      bytes, the magic, two bytes the classifier skips, the tag as stored, and
      whatever follows. */
  function Img4Layout(lead: seq<byte>, skipped: seq<byte>, tag: seq<byte>, rest: seq<byte>): seq<byte>
    requires |lead| == 7 && |skipped| == 2 && |tag| == 4
  {
    lead + Img4Magic + skipped + tag + rest
  }

  /** Classifying a laid-out IMG3 container gives back its tag, undoing the
      byte reversal of the layout. */
  lemma Img3RoundTrip(tag: seq<byte>, skipped: seq<byte>, rest: seq<byte>)
    requires |tag| == 4 && |skipped| == 12
    ensures GetImageType(Img3Layout(tag, skipped, rest)) == Some(Header(Img3, tag))
  {
    var data := Img3Layout(tag, skipped, rest);
    assert data[..4] == Img3Magic;
    assert Slice(data, 16, 20) == Reverse(tag);
    ReverseReverse(tag);
  }

  /** Classifying a laid-out IMG4 payload gives back its tag unchanged,
      provided the leading bytes do not themselves spell the IMG3 magic. */
  lemma Img4RoundTrip(lead: seq<byte>, skipped: seq<byte>, tag: seq<byte>, rest: seq<byte>)
    requires |lead| == 7 && |skipped| == 2 && |tag| == 4
    requires lead[..4] != Img3Magic
    ensures GetImageType(Img4Layout(lead, skipped, tag, rest)) == Some(Header(Img4, tag))
  {
    var data := Img4Layout(lead, skipped, tag, rest);
    assert data[..4] == lead[..4];
    assert data[7..11] == Img4Magic;
    assert Slice(data, 13, 17) == tag;
  }
}
