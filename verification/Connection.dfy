/** A native-protocol connection: messages are collected in one growing buffer, sent as bytes, and
    found again in another, however the stream was cut up on the way. */
module Connection {
  import opened Prelude
  import opened Framing

  const MAX_BUFFER_SIZE := 4096

  /** The receiving end of a socket: the bytes still to be delivered. */
  class Socket {
    var pending: seq<byte>

    constructor ()
      ensures pending == []
    {
      pending := [];
    }

    /** A blocking read: at least one byte while there is any to come, and at most `room`. */
    method Receive(room: nat) returns (chunk: seq<byte>)
      requires room > 0
      modifies this
      ensures old(pending) == chunk + pending && |chunk| <= room
      ensures old(pending) != [] ==> chunk != []
    {
      var n: nat := 0;
      if pending != [] {
        n :| 0 < n <= room && n <= |pending|;
      }
      chunk := pending[..n];
      pending := pending[n..];
    }
  }

  class ConnectionBuffer {
    var data: array<byte>
    var bufferSize: nat
    var offset: nat          // of the payload of the message returned last, or of the next message
    var size: nat            // of that payload
    var update: bool         // the next read starts with a refill

    ghost predicate Sized()
      reads this, data
    {
      MAX_BUFFER_SIZE <= data.Length && bufferSize <= data.Length
    }

    ghost predicate Valid()
      reads this, data
    {
      Sized() && offset + size <= bufferSize && (update ==> bufferSize == 0)
    }

    ghost function Contents(): seq<byte>
      requires Sized()
      reads this, data
    {
      data[..bufferSize]
    }

    /** What is buffered and not yet returned. */
    ghost function Unread(): seq<byte>
      requires Valid()
      reads this, data
    {
      data[offset + size..bufferSize]
    }

    constructor (update: bool)
      ensures Valid() && fresh(data) && Contents() == [] && Unread() == [] && this.update == update
    {
      data := new byte[MAX_BUFFER_SIZE];
      bufferSize, offset, size := 0, 0, 0;
      this.update := update;
    }

    /** Makes room for `more` bytes behind the contents, in multiples of 4096. */
    method EnsureSize(more: nat)
      requires Sized()
      modifies this`data
      ensures Sized() && (data == old(data) || fresh(data))
      ensures data.Length >= bufferSize + more && data.Length >= old(data.Length)
      ensures data[..bufferSize] == old(data[..bufferSize])
      ensures bufferSize + more <= old(data.Length) ==> data == old(data)
      ensures bufferSize + more > old(data.Length) ==>
                data.Length % MAX_BUFFER_SIZE == 0 && data.Length < bufferSize + more + MAX_BUFFER_SIZE
    {
      if bufferSize + more > data.Length {
        var maxSize := (bufferSize + more + MAX_BUFFER_SIZE - 1) / MAX_BUFFER_SIZE * MAX_BUFFER_SIZE;
        var bigger := new byte[maxSize];
        forall i | 0 <= i < bufferSize {
          bigger[i] := data[i];
        }
        data := bigger;
      }
    }

    method Clear()
      requires Sized()
      modifies this`bufferSize, this`offset, this`size
      ensures Sized() && bufferSize == offset == size == 0
    {
      offset, size, bufferSize := 0, 0, 0;
    }

    // ---------- writing ----------

    /** Reserves a message; the payload goes 8 bytes behind the position returned. */
    method BeginWrite(payloadSize: nat) returns (at: nat)
      requires Valid()
      modifies this`data
      ensures Valid() && (data == old(data) || fresh(data))
      ensures at == bufferSize + 8 && data.Length >= at + payloadSize
      ensures Contents() == old(Contents())
    {
      EnsureSize(8 + payloadSize);
      at := bufferSize + 8;
    }

    /** Completes a message whose payload has been written in place. */
    method EndWrite(dest: word32, opcode: byte, payloadSize: nat)
      requires Valid() && offset == size == 0 && !update
      requires data.Length >= bufferSize + 8 + payloadSize
      modifies this, data
      ensures Valid() && data == old(data) && offset == size == 0 && update == old(update)
      ensures Contents() == old(Contents()) +
                Header(dest, opcode, payloadSize) + old(data[bufferSize + 8..bufferSize + 8 + payloadSize])
    {
      EnsureSize(8 + payloadSize);
      var header := Header(dest, opcode, payloadSize);
      ghost var before := data[..];
      var end := bufferSize + 8 + payloadSize;
      Put(bufferSize, header);
      Spliced(before, data[..], bufferSize, header, payloadSize);
      bufferSize := end;
      assert data[..bufferSize] == data[..][..end];
    }

    /** Writes one message the way every marshal function does. */
    method Write(m: Message)
      requires Valid() && offset == size == 0 && !update
      modifies this, data
      ensures Valid() && (data == old(data) || fresh(data)) && offset == size == 0 && update == old(update)
      ensures Contents() == old(Contents()) + Frame(m)
    {
      var at := BeginWrite(|m.payload|);
      Put(at, m.payload);
      ghost var before, header := Contents(), Header(m.dest, m.opcode, |m.payload|);
      EndWrite(m.dest, m.opcode, |m.payload|);
      assert before + header + m.payload == before + (header + m.payload);
    }

    /** Stores bytes behind the contents. */
    method Put(at: nat, bytes: seq<byte>)
      requires Sized() && bufferSize <= at && at + |bytes| <= data.Length
      modifies data
      ensures data[at..at + |bytes|] == bytes && data[..bufferSize] == old(data[..bufferSize])
      ensures data[bufferSize..at] == old(data[bufferSize..at])
      ensures data[at + |bytes|..] == old(data[at + |bytes|..])
    {
      ghost var before := data[..];
      forall i | 0 <= i < |bytes| {
        data[at + i] := bytes[i];
      }
      Stored(before, data[..], at, bytes);
      assert data[..bufferSize] == data[..][..bufferSize] && before[..bufferSize] == before[..at][..bufferSize];
      assert data[..bufferSize] == data[..][..at][..bufferSize];
      assert data[bufferSize..at] == data[..][..at][bufferSize..];
      assert before[bufferSize..at] == before[..at][bufferSize..];
    }

    /** Sends what is buffered; the system accepts `sent` bytes of it. */
    method Flush(socket: Socket, sent: nat)
      requires Valid() && offset == size == 0 && sent <= bufferSize
      modifies this`bufferSize, socket
      ensures Valid() && data == old(data)
      ensures socket.pending == old(socket.pending) + old(Contents())[..sent]
      ensures Contents() == old(Contents())[..old(bufferSize) - sent]
    {
      if bufferSize == 0 {
        return;
      }
      socket.pending := socket.pending + data[..sent];
      bufferSize := bufferSize - sent;
    }

    // ---------- reading ----------

    /** Reads what has arrived, into the room behind the contents. */
    method Refill(socket: Socket) returns (ghost chunk: seq<byte>)
      requires Sized() && offset <= bufferSize < data.Length
      modifies this`bufferSize, data, socket
      ensures Sized() && offset <= bufferSize
      ensures data[offset..bufferSize] == old(data[offset..bufferSize]) + chunk
      ensures old(socket.pending) == chunk + socket.pending
      ensures old(socket.pending) != [] ==> chunk != []
    {
      var received := socket.Receive(data.Length - bufferSize);
      Put(bufferSize, received);
      ghost var before := data[..bufferSize];
      bufferSize := bufferSize + |received|;
      assert data[..bufferSize] == before + received;
      chunk := received;
    }

    /** Makes room for more of a message, and asks for a refill. */
    method WaitFor(more: nat)
      requires Sized() && offset <= bufferSize && more > 0
      modifies this`data, this`update
      ensures Sized() && (data == old(data) || fresh(data)) && update && bufferSize < data.Length
      ensures data[offset..bufferSize] == old(data[offset..bufferSize])
    {
      EnsureSize(more);
      update := true;
      assert data[offset..bufferSize] == data[..bufferSize][offset..];
      assert old(data[offset..bufferSize]) == old(data[..bufferSize])[offset..];
    }

    /** Looks for a whole message at the offset. If there is one it is returned; if not, there is
        room for more of it, and more has to be read. */
    method ReadPacket() returns (r: Option<Message>)
      requires Sized() && offset < bufferSize && !update
      modifies this`offset, this`size, this`data, this`update
      ensures Sized() && (data == old(data) || fresh(data)) && offset + (if r.Some? then size else 0) <= bufferSize
      ensures r.Some? <==> HasMessage(old(data[offset..bufferSize]))
      ensures r.Some? ==>
                && r.value == FirstMessage(old(data[offset..bufferSize]))
                && size == |r.value.payload| && !update
                && data[offset + size..bufferSize] == old(data[offset..bufferSize])[8 + size..]
      ensures r.None? ==> && data[offset..bufferSize] == old(data[offset..bufferSize])
                          && offset == old(offset) && update && bufferSize < data.Length
    {
      ghost var unread := data[offset..bufferSize];
      var available := bufferSize - offset;
      if available < 8 {
        WaitFor(8);
        return None;
      }
      var header := data[offset..offset + 8];
      assert header == unread[..8] && header[..4] == unread[..4] && header[4..8] == unread[4..8];
      var dest, opcode, len := DestOf(header), OpcodeOf(header), SizeOf(header);
      available := available - 8;
      if len > available {
        WaitFor(len);
        return None;
      }
      SubSlice(data[..], offset, bufferSize, 8, 8 + len);
      SubSlice(data[..], offset, bufferSize, 8 + len, bufferSize - offset);
      size := len;
      offset := offset + 8;
      return Some(Message(dest, opcode, data[offset..offset + size]));
    }

    ghost function Rest(): seq<byte>
      requires Sized() && offset <= bufferSize
      reads this, data
    {
      data[offset..bufferSize]
    }

    /** Everything the reader has yet to return: what is buffered, then what is on the way. */
    ghost function Ahead(socket: Socket): seq<byte>
      requires Valid()
      reads this, data, socket
    {
      Unread() + socket.pending
    }

    /** The same while a message is looked for. */
    ghost function Left(socket: Socket): seq<byte>
      requires Sized() && offset <= bufferSize
      reads this, data, socket
    {
      Rest() + socket.pending
    }

    /** Does the refill that is due. */
    method RefillDue(socket: Socket)
      requires Sized() && offset <= bufferSize < data.Length && update
      modifies this`bufferSize, this`update, data, socket
      ensures Sized() && offset <= bufferSize && !update
      ensures Left(socket) == old(Left(socket))
      ensures Rest() == [] ==> old(Rest()) == [] && socket.pending == old(socket.pending) == []
      ensures Rest() != [] ==> old(Rest()) != [] || old(socket.pending) != []
      ensures if old(socket.pending) != [] then |socket.pending| < |old(socket.pending)|
              else socket.pending == [] && Rest() == old(Rest())
    {
      ghost var rest := Rest();
      ghost var chunk := Refill(socket);
      update := false;
      assert rest + chunk + socket.pending == rest + (chunk + socket.pending);
    }

    /** One try at the next message: refill if that is due, then look. `again` asks for another. */
    method Try(socket: Socket) returns (r: Option<Message>, again: bool)
      requires Sized() && offset <= bufferSize && (update ==> bufferSize < data.Length)
      requires Framed(Left(socket))
      modifies this, data, socket
      ensures Sized() && offset <= bufferSize && (data == old(data) || fresh(data))
      ensures again ==> && update && bufferSize < data.Length && Rest() != [] && Left(socket) == old(Left(socket))
                        && (|socket.pending| < |old(socket.pending)|
                            || (!old(update) && |socket.pending| == |old(socket.pending)|))
      ensures !again ==> Valid()
      ensures !again && r.Some? ==>
                && !update && HasMessage(old(Left(socket))) && r.value == FirstMessage(old(Left(socket)))
                && Ahead(socket) == old(Left(socket))[8 + |r.value.payload|..]
      ensures again || r.Some? ==> old(Rest()) != [] || (old(update) && old(socket.pending) != [])
      ensures !again && r.None? ==>
                && update && Unread() == [] && old(Rest()) == [] && socket.pending == old(socket.pending)
                && (old(update) ==> socket.pending == [])
    {
      ghost var some := Rest() != [] || (update && socket.pending != []);
      if update {
        RefillDue(socket);
      }
      assert !update && Left(socket) == old(Left(socket)) && (Rest() != [] ==> some);
      if offset >= bufferSize {
        Clear();
        update := true;
        return None, false;
      }
      assert Rest() != [] && some;
      r := Look(socket.pending);
      again := r.None?;
    }

    /** Looks for a message in what is buffered, given what is still to come. */
    method Look(ghost pending: seq<byte>) returns (r: Option<Message>)
      requires Sized() && offset < bufferSize && !update && Framed(Rest() + pending)
      modifies this`offset, this`size, this`data, this`update
      ensures Sized() && offset <= bufferSize && (data == old(data) || fresh(data))
      ensures r.None? ==> && update && bufferSize < data.Length && Rest() == old(Rest()) && pending != []
      ensures r.Some? ==>
                && !update && offset + size <= bufferSize && size == |r.value.payload|
                && HasMessage(old(Rest()) + pending)
                && r.value == FirstMessage(old(Rest()) + pending)
                && data[offset + size..bufferSize] + pending == (old(Rest()) + pending)[8 + size..]
    {
      ghost var unread := Rest();
      MessageInPrefix(unread, pending);
      r := ReadPacket();
      if r.Some? {
        DropFront(unread, pending, 8 + size);
      }
    }

    /** Moves to the next message. Of a stream of whole messages it returns the first, whatever the
        chunks it arrives in; it returns nothing only between messages, and loses no byte. */
    method GetNext(socket: Socket) returns (r: Option<Message>)
      requires Valid() && Framed(Ahead(socket))
      modifies this, data, socket
      ensures Valid() && (data == old(data) || fresh(data))
      ensures old(Unread()) != [] || (old(update) && old(socket.pending) != []) <==> r.Some?
      ensures r.Some? ==>
                && HasMessage(old(Ahead(socket))) && r.value == FirstMessage(old(Ahead(socket)))
                && Ahead(socket) == old(Ahead(socket))[8 + |r.value.payload|..]
                && !update
      ensures r.None? ==> Unread() == [] && update && socket.pending == old(socket.pending)
    {
      offset := offset + size;
      assert Rest() == old(Unread()) && Left(socket) == old(Ahead(socket));
      r := Search(socket);
    }

    /** Tries until there is a message, or none is to be had. */
    method Search(socket: Socket) returns (r: Option<Message>)
      requires Sized() && offset <= bufferSize && (update ==> bufferSize < data.Length) && Framed(Left(socket))
      modifies this, data, socket
      ensures Valid() && (data == old(data) || fresh(data))
      ensures old(Rest()) != [] || (old(update) && old(socket.pending) != []) <==> r.Some?
      ensures r.Some? ==>
                && HasMessage(old(Left(socket))) && r.value == FirstMessage(old(Left(socket)))
                && Ahead(socket) == old(Left(socket))[8 + |r.value.payload|..]
                && !update
      ensures r.None? ==> Unread() == [] && update && socket.pending == old(socket.pending)
    {
      var again;
      r, again := Try(socket);
      while again
        invariant Sized() && offset <= bufferSize && (data == old(data) || fresh(data))
        invariant again ==> && update && bufferSize < data.Length && Rest() != [] && Left(socket) == old(Left(socket))
        invariant !again ==> Valid()
        invariant !again && r.Some? ==>
                    && !update && HasMessage(old(Left(socket))) && r.value == FirstMessage(old(Left(socket)))
                    && Ahead(socket) == old(Left(socket))[8 + |r.value.payload|..]
        invariant again || r.Some? ==> old(Rest()) != [] || (old(update) && old(socket.pending) != [])
        invariant !again && r.None? ==>
                    && update && Unread() == [] && old(Rest()) == [] && socket.pending == old(socket.pending)
                    && (old(update) ==> socket.pending == [])
        decreases again, |socket.pending|
      {
        r, again := Try(socket);
      }
    }

    /** Handles messages for as long as any are to come, as the socket handlers of both ends do: what
        they handle is the stream, decoded. */
    method ReceiveAll(socket: Socket) returns (ms: seq<Message>)
      requires Valid() && Framed(Ahead(socket))
      modifies this, data, socket
      ensures Valid() && Unread() == [] && socket.pending == []
      ensures ms == Decode(old(Ahead(socket)))
    {
      ms := [];
      ghost var all := Decode(Ahead(socket));
      while !update || socket.pending != []
        invariant Valid() && (data == old(data) || fresh(data))
        invariant Framed(Ahead(socket)) && ms + Decode(Ahead(socket)) == all
        decreases |Ahead(socket)|, !update
      {
        ms := ReceiveOne(socket, ms);
      }
    }

    /** Handles the next message, if there is one now. */
    method ReceiveOne(socket: Socket, ms: seq<Message>) returns (ms': seq<Message>)
      requires Valid() && Framed(Ahead(socket)) && (update ==> socket.pending != [])
      modifies this, data, socket
      ensures Valid() && (data == old(data) || fresh(data)) && Framed(Ahead(socket))
      ensures ms' + Decode(Ahead(socket)) == ms + Decode(old(Ahead(socket)))
      ensures |Ahead(socket)| < |old(Ahead(socket))|
           || (Ahead(socket) == old(Ahead(socket)) && update && !old(update))
    {
      ghost var left := Ahead(socket);
      var r := GetNext(socket);
      if r.None? {
        assert Ahead(socket) == left;
        return ms;
      }
      DecodeFirst(left);
      Regroup(ms, r.value, Decode(Ahead(socket)));
      return ms + [r.value];
    }
  }

  /** A flush that the system cuts short moves no bytes up: the stream survives it exactly when the
      bytes left at the front of the buffer happen to be those not sent. */
  lemma PartialFlush(pending: seq<byte>, contents: seq<byte>, sent: nat)
    requires sent <= |contents|
    ensures (pending + contents[..sent]) + contents[..|contents| - sent] == pending + contents
       <==> contents[..|contents| - sent] == contents[sent..]
  {
    var left := contents[..|contents| - sent];
    var whole := (pending + contents[..sent]) + left;
    assert whole[|pending| + sent..] == left;
    assert (pending + contents)[|pending| + sent..] == contents[sent..];
    assert contents == contents[..sent] + contents[sent..];
  }

  lemma Stored(before: seq<byte>, now: seq<byte>, at: nat, bytes: seq<byte>)
    requires |now| == |before| && at + |bytes| <= |now|
    requires forall i | 0 <= i < |now| :: now[i] == if at <= i < at + |bytes| then bytes[i - at] else before[i]
    ensures now[..at] == before[..at] && now[at..at + |bytes|] == bytes
    ensures now[at + |bytes|..] == before[at + |bytes|..]
  {
  }

  /** Bytes stored at a place, between what is in front of it and what lies behind. */
  lemma Spliced(before: seq<byte>, now: seq<byte>, at: nat, bytes: seq<byte>, n: nat)
    requires |now| == |before| && at + |bytes| + n <= |now|
    requires now[..at] == before[..at] && now[at..at + |bytes|] == bytes
    requires now[at + |bytes|..] == before[at + |bytes|..]
    ensures now[..at + |bytes| + n] == before[..at] + bytes + before[at + |bytes|..at + |bytes| + n]
  {
    var i := at + |bytes|;
    assert now[i..i + n] == now[i..][..n] == before[i..][..n] == before[i..i + n];
    assert now[..i + n] == now[..at] + now[at..i] + now[i..i + n];
  }
}
