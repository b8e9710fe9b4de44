/** The growable read buffer, and the buffered reader over it. */
module IoBuffer {
  import opened Bytes
  import opened Results
  import opened BodyErrors
  import opened Endpoints

  /** Only the first `position` bytes of `buffer` are valid; what lies past them is padding, or
      whatever an earlier read left there. */
  class ReaderBuffer {
    var buffer: Bytes
    var position: nat

    ghost predicate Valid()
      reads this
    {
      position <= |buffer|
    }

    ghost function Queue(): Bytes
      reads this
      requires Valid()
    {
      buffer[..position]
    }

    constructor ()
      ensures Valid() && Queue() == []
    {
      buffer, position := [], 0;
    }

    method SplitTo(len: nat) returns (b: Bytes)
      requires Valid() && len <= |Queue()|
      modifies this
      ensures Valid() && |b| == len && old(Queue()) == b + Queue()
    {
      b := buffer[..len];
      buffer, position := buffer[len..], position - len;
    }

    method GetU8() returns (b: byte)
      requires Valid() && Queue() != []
      modifies this
      ensures Valid() && old(Queue()) == [b] + Queue()
    {
      b := buffer[0];
      buffer, position := buffer[1..], position - 1;
    }

    /** Makes room for `extra` more bytes and returns where that room starts. */
    method Reserve(extra: nat) returns (start: nat)
      requires Valid()
      modifies this
      ensures Valid() && Queue() == old(Queue())
      ensures start == position == old(position) && start + extra <= |buffer|
    {
      var needed := position + extra;
      if needed > |buffer| {
        buffer := buffer + seq(needed - |buffer|, _ => 0);
      }
      start := position;
    }

    method Advance(count: nat)
      requires position + count <= |buffer|
      modifies this
      ensures Valid() && buffer == old(buffer) && position == old(position) + count
    {
      position := position + count;
    }

    /** A read writes `data` into the reserved room, and may leave anything in the rest of it. */
    method Scribble(data: Bytes)
      requires Valid() && position + |data| <= |buffer|
      modifies this
      ensures Valid() && position == old(position) && |buffer| == |old(buffer)|
      ensures Queue() == old(Queue()) && buffer[position..position + |data|] == data
    {
      var junk: Bytes := *;
      var room := |buffer| - position - |data|;
      junk := if |junk| == room then junk else buffer[position + |data|..];
      buffer := buffer[..position] + data + junk;
    }
  }

  const IO_FILL_LEN := 4096

  /** A source with a buffer in front of it. Everything still to be read is the buffered bytes
      followed by the unread ones; filling only moves bytes from the one to the other. */
  class BytesReader {
    const io: Source
    const buffer: ReaderBuffer

    constructor (io: Source)
      ensures this.io == io && fresh(buffer) && Valid() && Buffered() == []
    {
      this.io := io;
      buffer := new ReaderBuffer();
    }

    ghost function Repr(): set<object> {
      {io, buffer}
    }

    ghost predicate Valid()
      reads Repr()
    {
      buffer.Valid()
    }

    ghost function Buffered(): Bytes
      reads Repr()
      requires Valid()
    {
      buffer.Queue()
    }

    ghost function Contents(): Bytes
      reads Repr()
      requires Valid()
    {
      Buffered() + io.unread
    }

    function Len(): (n: nat)
      reads Repr()
      requires Valid()
      ensures n == |Buffered()|
    {
      buffer.position
    }

    function AsBytes(): (s: Bytes)
      reads Repr()
      requires Valid()
      ensures s == Buffered()
    {
      buffer.buffer[..buffer.position]
    }

    method SplitTo(len: nat) returns (b: Bytes)
      requires Valid() && len <= |Buffered()|
      modifies buffer
      ensures Valid() && |b| == len
      ensures old(Buffered()) == b + Buffered() && old(Contents()) == b + Contents()
    {
      b := buffer.SplitTo(len);
      assert b + (Buffered() + io.unread) == b + Buffered() + io.unread;
    }

    method GetU8() returns (b: byte)
      requires Valid() && Buffered() != []
      modifies buffer
      ensures Valid()
      ensures old(Buffered()) == [b] + Buffered() && old(Contents()) == [b] + Contents()
    {
      b := buffer.GetU8();
      assert [b] + (Buffered() + io.unread) == [b] + Buffered() + io.unread;
    }

    /** `do_fill`: no outcome of it loses, repeats or reorders a byte. */
    method DoFill(len: nat) returns (r: Poll<Result<nat, IoError>>)
      requires Valid()
      modifies Repr()
      ensures Valid() && Contents() == old(Contents())
      ensures r.Pending? ==> Buffered() == old(Buffered()) && io.patience < old(io.patience)
      ensures io.reliable && r.Ready? ==> r.value.Ok?
      ensures r.Ready? ==> io.patience == old(io.patience)
      ensures r.Ready? && r.value.Err? ==> Buffered() == old(Buffered())
      ensures r.Ready? && r.value.Ok? ==>
        && |Buffered()| == |old(Buffered())| + r.value.value && r.value.value <= len
        && old(Buffered()) <= Buffered()
        && (r.value.value == 0 ==> len == 0 || io.unread == [])
    {
      var start := buffer.Reserve(len);
      var p := io.PollRead(len);
      if p.Ready? && p.value.Ok? {
        var data := p.value.value;
        buffer.Scribble(data);
        ghost var before := buffer.Queue();
        buffer.Advance(|data|);
        assert buffer.Queue() == before + data;
        assert before + data + io.unread == before + (data + io.unread);
        return Ready(Ok(|data|));
      }
      buffer.Scribble([]);
      r := if p.Pending? then Pending else Ready(Err(p.value.error));
    }

    /** Ready once at least one byte is buffered. */
    method PollEnsure() returns (r: Poll<Result<Unit, BodyError>>)
      requires Valid()
      modifies Repr()
      ensures Valid() && Contents() == old(Contents()) && old(Buffered()) <= Buffered()
      ensures r.Pending? ==> io.patience < old(io.patience) && Buffered() == old(Buffered())
      ensures io.reliable && r.Ready? && r.value.Err? ==> !r.value.error.BodyReadError?
      ensures r.Ready? ==> io.patience == old(io.patience)
      ensures r.Ready? && r.value.Ok? ==> Buffered() != []
      ensures old(Buffered()) != [] ==> r == Ready(Ok(Unit.Unit)) && Buffered() == old(Buffered())
      ensures r.Ready? && r.value.Err? ==>
        r.value.error.BodyReadError? || (r.value.error.UnexpectedEof? && Contents() == [])
    {
      if Len() > 0 {
        return Ready(Ok(Unit.Unit));
      }
      r := Filled();
    }

    /** Ready once at least one byte more is buffered. */
    method PollExtend() returns (r: Poll<Result<Unit, BodyError>>)
      requires Valid()
      modifies Repr()
      ensures Valid() && Contents() == old(Contents()) && old(Buffered()) <= Buffered()
      ensures r.Pending? ==> io.patience < old(io.patience) && Buffered() == old(Buffered())
      ensures io.reliable && r.Ready? && r.value.Err? ==> !r.value.error.BodyReadError?
      ensures r.Ready? ==> io.patience == old(io.patience)
      ensures r.Ready? && r.value.Ok? ==> |Buffered()| > |old(Buffered())|
      ensures r.Ready? && r.value.Err? ==>
        r.value.error.BodyReadError? || (r.value.error.UnexpectedEof? && Contents() == Buffered() == old(Buffered()))
    {
      r := Filled();
    }

    method Filled() returns (r: Poll<Result<Unit, BodyError>>)
      requires Valid()
      modifies Repr()
      ensures Valid() && Contents() == old(Contents()) && old(Buffered()) <= Buffered()
      ensures r.Pending? ==> io.patience < old(io.patience) && Buffered() == old(Buffered())
      ensures io.reliable && r.Ready? && r.value.Err? ==> !r.value.error.BodyReadError?
      ensures r.Ready? ==> io.patience == old(io.patience)
      ensures r.Ready? && r.value.Ok? ==> |Buffered()| > |old(Buffered())|
      ensures r.Ready? && r.value.Err? ==>
        r.value.error.BodyReadError? || (r.value.error.UnexpectedEof? && Contents() == Buffered() == old(Buffered()))
    {
      var p := DoFill(IO_FILL_LEN);
      match p {
        case Pending => return Pending;
        case Ready(Err(e)) => return Ready(Err(BodyReadError(e)));
        case Ready(Ok(n)) => return if n == 0 then Ready(Err(UnexpectedEof)) else Ready(Ok(Unit.Unit));
      }
    }
  }
}
