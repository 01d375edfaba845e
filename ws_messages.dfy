/** The length-prefixed frame (WSMessage) and the assembler that rebuilds one
    inbound frame from transport chunks (WSMessage::Fragment). */
module WSMessages {
  import opened ByteOrder

  /* Transport padding. Only the configuration without a transport library
     is modelled, where both padding regions are empty. */
  const LwsBufStart: nat := 0
  const LwsBufEnd: nat := 0
  const LwsBufTotal: nat := LwsBufStart + LwsBufEnd

  /* Buffer layout offsets of WSMessage. */
  const PreBodySize: nat := LwsBufStart + SizeFieldLength
  const PostBodySize: nat := LwsBufEnd
  const BodyOffset: nat := PreBodySize
  const SizeBinOffset: nat := LwsBufTotal

  /** Where the body starts in a Fragment's buffer. */
  const DataOffset: nat := SizeFieldLength

  /** The wire form of a frame: the body length as a big-endian uint32,
      then the body. */
  function Frame(body: seq<Byte>): (wire: seq<Byte>)
    requires |body| < 0x1_0000_0000
    ensures |wire| == SizeFieldLength + |body|
    ensures DecodeMsgSize(wire) == |body|
    ensures wire[SizeFieldLength..] == body
  {
    DecodeEncode(|body|);
    EncodeU32(|body|) + body
  }

  /** One frame, owned as a byte buffer, with a read cursor into it. */
  class WSMessage {
    var Buffer: seq<Byte>
    var SeekOffset: U64

    /** The length field is present and agrees with the size of the buffer. */
    ghost predicate Valid()
      reads this
    {
      |Buffer| >= SizeBinOffset + SizeFieldLength &&
      |Buffer| == PreBodySize + GetBodySize()
    }

    /** Builds the frame for `body`: resize, zero the prefix, write the
        length field, then copy the body behind it. */
    constructor (body: seq<Byte>)
      requires |body| < 0x1_0000_0000
      ensures Valid()
      ensures Buffer == Frame(body)
      ensures Buffer[SizeBinOffset..SizeBinOffset + SizeFieldLength] == EncodeU32(|body|)
      ensures GetBodySize() == |body| && GetBody() == body
      ensures GetPosition() == 0
    {
      Buffer := [];
      SeekOffset := 0;
      new;
      Resize(|body|);
      Buffer := Overwrite(Buffer, BodyOffset, body);
      assert Buffer[..SizeFieldLength] == Buffer[SizeBinOffset..SizeBinOffset + SizeFieldLength];
      assert Buffer == Buffer[..SizeFieldLength] + Buffer[BodyOffset..];
      DecodeEncode(|body|);
    }

    /** Writes `bodyLength`, cut to 32 bits, into the length field in
        network byte order; no other byte changes. */
    method EncodeSize(bodyLength: U64)
      requires |Buffer| >= SizeBinOffset + SizeFieldLength
      modifies this`Buffer
      ensures |Buffer| == |old(Buffer)|
      ensures Buffer[SizeBinOffset..SizeBinOffset + SizeFieldLength] == EncodeU32(ToU32(bodyLength))
      ensures GetBodySize() == ToU32(bodyLength)
      ensures forall i :: 0 <= i < |Buffer| && !(SizeBinOffset <= i < SizeBinOffset + SizeFieldLength) ==>
                Buffer[i] == old(Buffer)[i]
    {
      Buffer := Overwrite(Buffer, SizeBinOffset, EncodeU32(ToU32(bodyLength)));
      assert Buffer[SizeBinOffset..][..SizeFieldLength] == EncodeU32(ToU32(bodyLength));
      DecodeEncode(ToU32(bodyLength));
    }

    /** Sizes the buffer for a body of `bodyLength` bytes, zeroes the prefix
        and the post-padding, and writes the length field. */
    method Resize(bodyLength: U64)
      requires bodyLength < 0x1_0000_0000
      modifies this`Buffer
      ensures Valid()
      ensures |Buffer| == PreBodySize + bodyLength
      ensures GetBodySize() == bodyLength
      ensures Buffer[SizeBinOffset..SizeBinOffset + SizeFieldLength] == EncodeU32(bodyLength)
      ensures forall i :: BodyOffset <= i < |Buffer| - PostBodySize ==>
                Buffer[i] == (if i < |old(Buffer)| then old(Buffer)[i] else 0)
    {
      Buffer := Resized(Buffer, PreBodySize + bodyLength);
      Buffer := Overwrite(Buffer, 0, Zeros(PreBodySize));
      EncodeSize(bodyLength);
      Buffer := Overwrite(Buffer, |Buffer| - PostBodySize, Zeros(PostBodySize));
    }

    /** GetBody: the body and everything after it; in a valid frame that is
        exactly as many bytes as the length field announces. */
    function GetBody(): (body: seq<Byte>)
      reads this
      requires |Buffer| >= BodyOffset
      ensures Valid() ==> |body| == GetBodySize()
    {
      Buffer[BodyOffset..]
    }

    /** GetSeekedBody: the body from the cursor on. */
    function GetSeekedBody(): (rest: seq<Byte>)
      reads this
      requires BodyOffset + SeekOffset <= |Buffer|
      ensures rest == GetBody()[SeekOffset..]
      ensures Valid() ==> |rest| == GetBodySize() - SeekOffset
    {
      Buffer[BodyOffset + SeekOffset..]
    }

    /** GetSeekedRawData: the buffer from the cursor on, padding and length
        field included. */
    function GetSeekedRawData(): (raw: seq<Byte>)
      reads this
      requires SeekOffset <= |Buffer|
      ensures |raw| == |Buffer| - SeekOffset
      ensures BodyOffset + SeekOffset <= |Buffer| ==> raw[BodyOffset..] == GetSeekedBody()
    {
      Buffer[SeekOffset..]
    }

    /** The body length, decoded afresh from the length field on every call:
        the value whose big-endian encoding the field holds. */
    function GetBodySize(): (n: U32)
      reads this
      requires |Buffer| >= SizeBinOffset + SizeFieldLength
      ensures EncodeU32(n) == Buffer[SizeBinOffset..SizeBinOffset + SizeFieldLength]
    {
      EncodeDecode(Buffer[SizeBinOffset..]);
      DecodeMsgSize(Buffer[SizeBinOffset..])
    }

    /** Body length minus cursor, in size_t arithmetic returned as uint32
        (2^32 divides 2^64, so only the low 32 bits of the difference matter). */
    function GetRemainingSize(): (r: U32)
      reads this
      requires |Buffer| >= SizeBinOffset + SizeFieldLength
      ensures SeekOffset <= GetBodySize() ==> r == GetBodySize() - SeekOffset
      ensures (r + SeekOffset - GetBodySize()) % 0x1_0000_0000 == 0
    {
      ToU32(GetBodySize() - SeekOffset)
    }

    /** The buffer size, returned as uint32. */
    function GetBufferSize(): (r: U32)
      reads this
      ensures |Buffer| < 0x1_0000_0000 ==> r == |Buffer|
      ensures (r - |Buffer|) % 0x1_0000_0000 == 0
    {
      ToU32(|Buffer|)
    }

    /** The cursor, as last set by a seek; the constructor's and the seek
        methods' contracts say what it is. */
    function GetPosition(): U64
      reads this
    {
      SeekOffset
    }

    /** Checked cursor move: succeeds, and moves the cursor, exactly when the
        offset lies inside the body; on failure nothing changes. */
    method Seek(offset: U64 := 0) returns (ok: bool)
      requires Valid()
      modifies this`SeekOffset
      ensures Valid() && Buffer == old(Buffer)
      ensures ok <==> offset < GetBodySize()
      ensures SeekOffset == if ok then offset else old(SeekOffset)
    {
      if offset >= GetBodySize() {
        return false;
      }
      SeekOffset := offset;
      return true;
    }

    /** Unchecked forward move: the cursor advances by `increment`, wrapping
        like size_t. */
    method RawSeekForward(increment: U64)
      modifies this`SeekOffset
      ensures Buffer == old(Buffer)
      ensures SeekOffset == ToU64(old(SeekOffset) + increment)
    {
      RawSeek(ToU64(SeekOffset + increment));
    }

    /** Checked forward move: Seek to the cursor plus `increment`. */
    method SeekForward(increment: U64) returns (ok: bool)
      requires Valid()
      modifies this`SeekOffset
      ensures Valid() && Buffer == old(Buffer)
      ensures ok <==> ToU64(old(SeekOffset) + increment) < GetBodySize()
      ensures SeekOffset == if ok then ToU64(old(SeekOffset) + increment) else old(SeekOffset)
    {
      ok := Seek(ToU64(SeekOffset + increment));
    }

    /** Unchecked cursor move to any offset. */
    method RawSeek(offset: U64 := 0)
      modifies this`SeekOffset
      ensures Buffer == old(Buffer)
      ensures SeekOffset == offset
    {
      SeekOffset := offset;
    }
  }

  /** After a successful Seek (the cursor inside the body), the seeked view is
      the rest of the body and the remaining size is its length: positive and
      at most the body size. */
  lemma SeekedBodyIsRemainder(m: WSMessage)
    requires m.Valid() && m.SeekOffset < m.GetBodySize()
    ensures m.GetRemainingSize() == m.GetBodySize() - m.SeekOffset == |m.GetSeekedBody()|
    ensures 0 < m.GetRemainingSize() <= m.GetBodySize()
  {
  }

  /** With the cursor moved past the end of the body by RawSeek, the remaining
      size wraps around to a value close to 2^32 instead of going negative. */
  lemma RemainingSizeWrapsPastEnd(m: WSMessage)
    requires m.Valid() && m.GetBodySize() < m.SeekOffset <= m.GetBodySize() + 0x1_0000_0000
    ensures m.GetRemainingSize() == 0x1_0000_0000 - (m.SeekOffset - m.GetBodySize())
  {
  }

  /** GetBufferSize reports the layout size, length field plus body, as
      long as that size fits in the uint32 it is returned as. */
  lemma BufferSizeMatchesLayout(m: WSMessage)
    requires m.Valid() && m.GetBodySize() < 0x1_0000_0000 - PreBodySize
    ensures m.GetBufferSize() == PreBodySize + m.GetBodySize()
  {
  }

  /** Reassembles one inbound frame from the chunks the transport delivers. */
  class Fragment {
    var Buffer: seq<Byte>
    var CompletedSize: U64

    /** The announced body length is the one in the buffer's own prefix. */
    ghost predicate Valid()
      reads this
    {
      |Buffer| >= DataOffset && CompletedSize == DecodeMsgSize(Buffer)
    }

    /** Takes the announced length from the first four bytes of the first
        chunk and keeps the whole chunk, prefix included. */
    constructor (data: seq<Byte>)
      requires |data| >= DataOffset
      ensures Valid()
      ensures CompletedSize == DecodeMsgSize(data)
      ensures Buffer == data
    {
      CompletedSize := DecodeMsgSize(data);
      Buffer := Resized([], |data|);
      new;
      Buffer := Overwrite(Buffer, 0, data);
      assert Buffer == Buffer[0..|data|];
    }

    /** Adds a chunk at the end; the announced length stays as it was. */
    method Append(data: seq<Byte>)
      requires Valid()
      modifies this`Buffer
      ensures Valid()
      ensures Buffer == old(Buffer) + data
      ensures CompletedSize == old(CompletedSize)
    {
      var oldSize := |Buffer|;
      Buffer := Resized(Buffer, |data| + oldSize);
      Buffer := Overwrite(Buffer, oldSize, data);
      assert Buffer == Buffer[..oldSize] + Buffer[oldSize..oldSize + |data|];
    }

    /** Complete when the buffer holds exactly the prefix and the announced
        body: not fewer bytes, and not more. */
    predicate IsComplete()
      reads this
      ensures Valid() && IsComplete() ==> |Buffer[DataOffset..]| == DecodeMsgSize(Buffer)
    {
      |Buffer| == CompletedSize + DataOffset
    }

    /** A new frame whose body is the announced number of bytes behind the
        prefix; the fragment itself is left as it is. */
    method Graduate() returns (m: WSMessage)
      requires Valid() && |Buffer| >= DataOffset + CompletedSize
      ensures fresh(m) && m.Valid()
      ensures m.Buffer == Frame(Buffer[DataOffset..DataOffset + CompletedSize])
      ensures m.GetBody() == Buffer[DataOffset..DataOffset + CompletedSize]
      ensures m.GetBodySize() == CompletedSize
      ensures m.GetPosition() == 0
    {
      m := new WSMessage(Buffer[DataOffset..DataOffset + CompletedSize]);
    }
  }

  /** The chunks delivered so far, joined in arrival order: what a Fragment
      built from the first chunk holds after Appending the others. */
  function Concat(chunks: seq<seq<Byte>>): seq<Byte>
  {
    if chunks == [] then [] else Concat(chunks[..|chunks| - 1]) + chunks[|chunks| - 1]
  }

  /** Joining two runs of chunks is joining their joins. */
  lemma {:induction false} ConcatSplit(a: seq<seq<Byte>>, b: seq<seq<Byte>>)
    ensures Concat(a + b) == Concat(a) + Concat(b)
  {
    if b == [] {
      assert a + b == a;
    } else {
      var front := b[..|b| - 1];
      assert (a + b)[..|a + b| - 1] == a + front;
      ConcatSplit(a, front);
    }
  }

  /** A frame split into a first chunk (holding at least the length field)
      and any further chunks, fed through the constructor and Append: after
      the first k further chunks the fragment is complete exactly when the
      chunks still to come are empty, and then its body is the frame's body. */
  lemma ChunkedReassembly(body: seq<Byte>, first: seq<Byte>, rest: seq<seq<Byte>>, k: nat)
    requires |body| < 0x1_0000_0000
    requires |first| >= DataOffset
    requires first + Concat(rest) == Frame(body)
    requires k <= |rest|
    ensures DecodeMsgSize(first) == |body|
    ensures |first + Concat(rest[..k])| == DecodeMsgSize(first) + DataOffset <==> Concat(rest[k..]) == []
    ensures Concat(rest[k..]) == [] ==> (first + Concat(rest[..k]))[DataOffset..] == body
  {
    assert rest == rest[..k] + rest[k..];
    ConcatSplit(rest[..k], rest[k..]);
    var wire := Frame(body);
    assert first[..DataOffset] == wire[..DataOffset];
  }

  /** A fragment holding the start of a frame, with `pending` still to be
      appended: it announces the frame's body length, it is complete exactly
      when nothing is pending, and then the bytes behind its prefix are the
      body that Graduate hands on. */
  lemma FragmentCompletion(f: Fragment, body: seq<Byte>, pending: seq<seq<Byte>>)
    requires f.Valid() && |body| < 0x1_0000_0000
    requires f.Buffer + Concat(pending) == Frame(body)
    ensures f.CompletedSize == |body|
    ensures f.IsComplete() <==> Concat(pending) == []
    ensures f.IsComplete() ==> f.Buffer[DataOffset..DataOffset + f.CompletedSize] == body
  {
    assert pending[..0] == [] && pending[0..] == pending;
    ChunkedReassembly(body, f.Buffer, pending, 0);
    assert f.Buffer + Concat(pending[..0]) == f.Buffer;
  }

  /** Completion is an exact byte count: a fragment that already holds a
      whole frame and at least one byte more (for instance the start of a
      second, pipelined frame) announces the first frame's length, is not
      complete, and stays incomplete whatever chunks are appended later. */
  lemma OverfullFragmentNeverCompletes(f: Fragment, b1: seq<Byte>, later: seq<seq<Byte>>)
    requires f.Valid() && |b1| < 0x1_0000_0000
    requires |f.Buffer| > |Frame(b1)| && f.Buffer[..|Frame(b1)|] == Frame(b1)
    ensures f.CompletedSize == |b1|
    ensures !f.IsComplete()
    ensures |f.Buffer + Concat(later)| != f.CompletedSize + DataOffset
  {
    assert f.Buffer[..SizeFieldLength] == Frame(b1)[..SizeFieldLength];
  }

  /** Feeds further chunks to a fragment in arrival order, as the transport
      callback does: the buffer gains their concatenation and the announced
      length stays. */
  method Feed(f: Fragment, chunks: seq<seq<Byte>>)
    requires f.Valid()
    modifies f
    ensures f.Valid()
    ensures f.Buffer == old(f.Buffer) + Concat(chunks)
    ensures f.CompletedSize == old(f.CompletedSize)
  {
    var i := 0;
    while i < |chunks|
      invariant 0 <= i <= |chunks|
      invariant f.Valid()
      invariant f.Buffer == old(f.Buffer) + Concat(chunks[..i])
      invariant f.CompletedSize == old(f.CompletedSize)
    {
      f.Append(chunks[i]);
      assert chunks[..i + 1][..i] == chunks[..i];
      i := i + 1;
    }
    assert chunks[..i] == chunks;
  }

  /** The outbound example: the body "hi" goes on the wire as 00 00 00 02 68 69. */
  method FrameExample()
  {
    var m := new WSMessage([0x68, 0x69]);
    assert EncodeU32(2) == [0, 0, 0, 2];
    assert m.Buffer == [0, 0, 0, 2, 0x68, 0x69];
    assert m.GetBodySize() == 2;
    var ok := m.Seek(1);
    assert ok && m.GetRemainingSize() == 1;
    ok := m.SeekForward(1);
    assert !ok && m.GetPosition() == 1;
  }

  /** The inbound example: a prefix announcing 3 bytes, then "ab", then "c". */
  method ReassemblyExample()
  {
    var f := new Fragment([0, 0, 0, 3]);
    assert !f.IsComplete();
    f.Append([0x61, 0x62]);
    assert !f.IsComplete();
    f.Append([0x63]);
    assert f.IsComplete();
    var m := f.Graduate();
    assert m.GetBody() == [0x61, 0x62, 0x63];
  }

  /** Two frames, "a" and "bc", delivered in one chunk: the fragment announces
      1 byte, holds 11, and no later chunks complete it. */
  method PipelinedExample(later: seq<seq<Byte>>)
  {
    var f := new Fragment([0, 0, 0, 1, 0x61, 0, 0, 0, 2, 0x62, 0x63]);
    assert Frame([0x61]) == [0, 0, 0, 1, 0x61];
    Feed(f, later);
    OverfullFragmentNeverCompletes(f, [0x61], []);
    assert !f.IsComplete();
  }
}
