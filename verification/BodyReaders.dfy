/** The other body readers, and the encoding-generic reader the forwarders pull from. */
module BodyReaders {
  import opened Bytes
  import opened Results
  import opened FieldSection
  import opened BodyErrors
  import opened ChunkedCoding
  import opened ChunkedReader
  import opened IoBuffer

  /** A body of `n` more bytes at the front of `s`. */
  function LengthOutcome(n: nat, s: Bytes): Outcome {
    if |s| < n then Outcome(s, Truncated, true) else Outcome(s[..n], Ended([], s[n..]), true)
  }

  lemma LengthAdvances(n: nat, b: Bytes, s: Bytes)
    requires |b| <= n
    ensures Advances(LengthOutcome(n, b + s), b, LengthOutcome(n - |b|, s))
  {
    if |s| >= n - |b| {
      assert (b + s)[..n] == b + s[..n - |b|];
      assert (b + s)[n..] == s[n - |b|..];
    }
  }

  lemma LengthEdges(n: nat, s: Bytes)
    ensures LengthOutcome(0, s) == Stop(Ended([], s), true)
    ensures n > 0 ==> LengthOutcome(n, []).end == Truncated
  {
    assert s[0..] == s;
  }

  class ContentLengthBodyReader {
    const reader: BytesReader
    const length: u64
    var offset: u64

    constructor (length: u64, reader: BytesReader)
      requires reader.Valid()
      ensures Valid() && this.length == length && this.reader == reader
      ensures View() == LengthOutcome(length, reader.Contents())
    {
      this.length, this.offset, this.reader := length, 0, reader;
    }

    ghost function Repr(): set<object> {
      {this, reader.io, reader.buffer}
    }

    ghost predicate Valid()
      reads Repr()
    {
      reader.Valid() && offset <= length
    }

    ghost function View(): Outcome
      reads Repr()
      requires Valid()
    {
      LengthOutcome(length - offset, reader.Contents())
    }

    /** The body is next, and some of it is already buffered. */
    ghost predicate DataBuffered()
      reads Repr()
      requires Valid()
    {
      offset < length && reader.Buffered() != []
    }

    method PollRead(maxLen: nat) returns (r: Poll<Result<Option<Bytes>, BodyError>>)
      requires Valid()
      modifies Repr()
      ensures Valid()
      ensures r.Pending? ==> reader.io.patience < old(reader.io.patience)
      ensures reader.io.reliable && r.Ready? && r.value.Err? ==> !r.value.error.BodyReadError?
      ensures r.Ready? ==> reader.io.patience == old(reader.io.patience)
      ensures match r
        case Pending => Advances(old(View()), [], View())
        case Ready(Ok(Some(b))) => Advances(old(View()), b, View()) && |b| <= maxLen && (maxLen > 0 ==> b != [])
        case Ready(Ok(None)) => offset == length && View() == old(View()) == Stop(Ended([], reader.Contents()), true)
        case Ready(Err(e)) => Explains(e, old(View()))
      ensures r.Ready? && r.value.Ok? && r.value.value.Some? ==>
        var b := r.value.value.value;
        |b| == Min(Min(length - old(offset), |b + reader.Buffered()|), maxLen) && offset == old(offset) + |b|
      ensures maxLen == 0 && r.Ready? && r.value.Ok? && r.value.value.Some? ==> DataBuffered()
      ensures maxLen == 0 && old(DataBuffered()) ==> r == Ready(Ok(Some([]))) && DataBuffered()
    {
      hide LengthOutcome;
      var remaining := length - offset;
      LengthEdges(remaining, reader.Contents());
      if remaining == 0 {
        return Ready(Ok(None));
      }
      var p := reader.PollEnsure();
      if p.Pending? {
        return Pending;
      } else if p.value.Err? {
        return Ready(Err(p.value.error));
      }
      var at := Min(Min(remaining, reader.Len()), maxLen);
      offset := offset + at;
      var b := reader.SplitTo(at);
      LengthAdvances(remaining, b, reader.Contents());
      return Ready(Ok(Some(b)));
    }

    method Drain() returns (r: Result<Unit, BodyError>)
      requires Valid()
      modifies Repr()
      ensures Valid() && reader.io.patience <= old(reader.io.patience)
      ensures reader.io.reliable && r.Err? ==> !r.error.BodyReadError?
      ensures r.Ok? ==> offset == length && old(View()).end == Ended([], reader.Contents())
      ensures r.Err? ==> Explains(r.error, old(View()))
    {
      hide LengthOutcome;
      ghost var o := View();
      ghost var discarded: Bytes := [];
      while true
        invariant Valid() && reader.io.patience <= old(reader.io.patience)
        invariant Advances(o, discarded, View())
        decreases reader.io.patience, |View().body|
      {
        ghost var v := View();
        var p := PollRead(DRAIN_SIZE);
        match p {
          case Pending =>
            AdvancesFurther(o, discarded, v, [], View());
            assert discarded + [] == discarded;
          case Ready(Ok(Some(b))) =>
            AdvancesFurther(o, discarded, v, b, View());
            discarded := discarded + b;
          case Ready(Ok(None)) =>
            return Ok(Unit.Unit);
          case Ready(Err(e)) =>
            return Err(e);
        }
      }
    }
  }

  /** A body that lasts until the peer closes. */
  class EofBodyReader {
    const reader: BytesReader
    var eof: bool

    constructor (reader: BytesReader)
      requires reader.Valid()
      ensures Valid() && this.reader == reader && !eof
    {
      this.reader, this.eof := reader, false;
    }

    ghost function Repr(): set<object> {
      {this, reader.io, reader.buffer}
    }

    ghost predicate Valid()
      reads Repr()
    {
      reader.Valid()
    }

    ghost function View(): Outcome
      reads Repr()
      requires Valid()
    {
      Outcome(if eof then [] else reader.Contents(), Ended([], []), true)
    }

    ghost predicate DataBuffered()
      reads Repr()
      requires Valid()
    {
      !eof && reader.Buffered() != []
    }

    /** The end of the body is reported early exactly when no bytes are asked for over an empty buffer
        and there are some yet to come: the read takes the empty buffer for a closed peer, and what
        was still unread is no longer part of the body. Asking for none over a buffer that holds some
        gives none, and changes nothing. */
    method PollRead(maxLen: nat) returns (r: Poll<Result<Option<Bytes>, BodyError>>)
      requires Valid()
      modifies Repr()
      ensures Valid()
      ensures r.Pending? ==> reader.io.patience < old(reader.io.patience)
      ensures reader.io.reliable && r.Ready? && r.value.Err? ==> !r.value.error.BodyReadError?
      ensures r.Ready? ==> reader.io.patience == old(reader.io.patience)
      ensures match r
        case Pending => View() == old(View()) && reader.Buffered() == old(reader.Buffered()) && !eof
        case Ready(Ok(Some(b))) =>
          && Advances(old(View()), b, View()) && !eof
          && |b| == Min(|b + reader.Buffered()|, maxLen) && (maxLen > 0 ==> b != [])
        case Ready(Ok(None)) => eof && (View() == old(View()) <==> maxLen > 0 || old(View()).body == [])
        case Ready(Err(e)) =>
          && Explains(e, old(View()))
          && View() == old(View()) && reader.Buffered() == old(reader.Buffered()) && !eof
      ensures old(eof) ==> r == Ready(Ok(None))
      ensures maxLen == 0 && old(DataBuffered()) ==> r == Ready(Ok(Some([]))) && DataBuffered()
      ensures maxLen == 0 && !old(DataBuffered()) && r.Ready? && r.value.Ok? ==>
        r == Ready(Ok(None)) && (!old(eof) ==> reader.Contents() == old(View()).body)
    {
      if eof {
        return Ready(Ok(None));
      }
      if reader.Len() > 0 {
        var b := reader.SplitTo(Min(reader.Len(), maxLen));
        return Ready(Ok(Some(b)));
      }
      var p := reader.DoFill(maxLen);
      match p {
        case Pending =>
          return Pending;
        case Ready(Err(e)) =>
          return Ready(Err(BodyReadError(e)));
        case Ready(Ok(n)) =>
          if n == 0 {
            eof := true;
            return Ready(Ok(None));
          }
          var b := reader.SplitTo(Min(reader.Len(), maxLen));
          return Ready(Ok(Some(b)));
      }
    }
  }

  class BodylessBodyReader {
    const reader: BytesReader

    constructor (reader: BytesReader)
      ensures this.reader == reader
    {
      this.reader := reader;
    }
  }

  /** The frontend and backend body readers; `recyclable` says whether the message head lets the
      connection be reused, which a close-delimited body never does. */
  datatype BodyReader =
    | Bodyless(none: BodylessBodyReader, recyclable: bool)
    | CL(cl: ContentLengthBodyReader, recyclable: bool)
    | TE(te: ChunkedBodyReader, recyclable: bool)
    | Eof(eof: EofBodyReader)
  {
    function Stream(): BytesReader {
      match this
      case Bodyless(r, _) => r.reader
      case CL(r, _) => r.reader
      case TE(r, _) => r.reader
      case Eof(r) => r.reader
    }

    ghost function Repr(): set<object> {
      Stream().Repr() + match this
      case Bodyless(_, _) => {}
      case CL(r, _) => {r}
      case TE(r, _) => {r}
      case Eof(r) => {r}
    }

    ghost predicate Valid()
      reads Repr()
    {
      match this
      case Bodyless(r, _) => r.reader.Valid()
      case CL(r, _) => r.Valid()
      case TE(r, _) => r.Valid()
      case Eof(r) => r.Valid()
    }

    ghost function View(): Outcome
      reads Repr()
      requires Valid()
    {
      match this
      case Bodyless(r, _) => Stop(Ended([], r.reader.Contents()), true)
      case CL(r, _) => r.View()
      case TE(r, _) => r.View()
      case Eof(r) => r.View()
    }

    ghost function Patience(): nat
      reads Repr()
    {
      Stream().io.patience
    }

    /** The transport never fails. */
    predicate Reliable() {
      Stream().io.reliable
    }

    /** Whether the reader itself has seen the end of the body. */
    predicate Drained()
      reads Repr()
    {
      match this
      case Bodyless(_, _) => true
      case CL(r, _) => r.offset == r.length
      case TE(r, _) => r.Drained()
      case Eof(r) => r.eof
    }

    /** A byte of the body is buffered and next to be read. */
    ghost predicate DataBuffered()
      reads Repr()
      requires Valid()
    {
      match this
      case Bodyless(_, _) => false
      case CL(r, _) => r.DataBuffered()
      case TE(r, _) => r.DataBuffered()
      case Eof(r) => r.DataBuffered()
    }

    /** And so there is something left of the body. */
    lemma DataIsBody()
      requires Valid() && DataBuffered()
      ensures View().body != []
    {
    }

    /** A read of no bytes gives none, again and again, once a byte is buffered; before that, it ends a
        close-delimited body. */
    method PollRead(maxLen: nat) returns (r: Poll<Result<Option<Bytes>, BodyError>>)
      requires Valid()
      modifies Repr()
      ensures Valid()
      ensures r.Pending? ==> Patience() < old(Patience())
      ensures Reliable() && r.Ready? && r.value.Err? ==> !r.value.error.BodyReadError?
      ensures r.Ready? ==> Patience() == old(Patience())
      ensures match r
        case Pending => Advances(old(View()), [], View())
        case Ready(Ok(Some(b))) => Advances(old(View()), b, View()) && |b| <= maxLen && (maxLen > 0 ==> b != [])
        case Ready(Ok(None)) =>
          && Drained() && View().body == [] && View().end.Ended?
          && (Advances(old(View()), [], View()) <==> maxLen > 0 || !Eof? || old(View()).body == [])
        case Ready(Err(e)) => Explains(e, old(View()))
      ensures maxLen == 0 && r.Ready? && r.value.Ok? && r.value.value.Some? ==> DataBuffered()
      ensures maxLen == 0 && old(DataBuffered()) ==> r == Ready(Ok(Some([]))) && DataBuffered()
      ensures maxLen == 0 && Eof? && !old(DataBuffered()) ==>
        !DataBuffered() && (r.Ready? && r.value.Ok? ==> r.value.value.None?)
    {
      hide Decode, LengthOutcome;
      match this {
        case Bodyless(_, _) => r := Ready(Ok(None));
        case CL(reader, _) => r := reader.PollRead(maxLen);
        case TE(reader, _) => r := reader.PollRead(maxLen);
        case Eof(reader) => r := reader.PollRead(maxLen);
      }
    }

    /** Discards what is left of the body. On success the connection comes back when it may be
        reused, with its stream at the first byte after the body. */
    method Drain() returns (r: Result<(Option<BytesReader>, seq<Field>), BodyError>)
      requires Valid()
      modifies Repr()
      ensures Valid() && Patience() <= old(Patience())
      ensures Reliable() && r.Err? ==> !r.error.BodyReadError?
      ensures r.Ok? ==> r.value.0 == if !Eof? && recyclable then Some(Stream()) else None
      ensures r.Ok? && !Eof? ==> old(View()).end == Ended(r.value.1, Stream().Contents())
      ensures r.Err? ==> Explains(r.error, old(View()))
      ensures Eof? ==> r.Ok? && r.value.1 == [] && View() == old(View())
    {
      hide Decode, LengthOutcome;
      var trailers: seq<Field> := [];
      match this {
        case Bodyless(_, _) =>
        case CL(reader, _) =>
          var d := reader.Drain();
          if d.Err? {
            return Err(d.error);
          }
        case TE(reader, _) =>
          var d := reader.Drain();
          if d.Err? {
            return Err(d.error);
          }
          trailers := d.value;
        case Eof(_) =>
      }
      return Ok((if !Eof? && recyclable then Some(Stream()) else None, trailers));
    }
  }
}
