/** File transfer over one connection (utils.py `send_file` and `recv_file`):
    the sender reads the file in chunks whose size depends on the file size,
    sends each under the retry policy and ends with the END_OF_FILE marker;
    the receiver writes what it reads until a buffer holds the marker. */
module Stream {
  import opened Seqs
  import opened Text
  import opened Retry

  const MIN_CHUNK_SIZE: nat := 1024
  const MAX_CHUNK_SIZE: nat := 65536
  const MIB: nat := 1024 * 1024

  /** The bytes of "END_OF_FILE", the sender's closing marker. */
  const END_OF_FILE: seq<byte> := [69, 78, 68, 95, 79, 70, 95, 70, 73, 76, 69]

  /** `calculate_chunk_size`: the read size for a file of `fileSize` bytes. */
  function ChunkSize(fileSize: nat): (r: nat)
    ensures MIN_CHUNK_SIZE <= r <= MAX_CHUNK_SIZE
    ensures r == MIN_CHUNK_SIZE <==> fileSize < MIB
    ensures r == 8192 <==> MIB <= fileSize < 10 * MIB
    ensures r == 32768 <==> 10 * MIB <= fileSize < 100 * MIB
    ensures r == MAX_CHUNK_SIZE <==> 100 * MIB <= fileSize
  {
    if fileSize < MIB then MIN_CHUNK_SIZE
    else if fileSize < 10 * MIB then 8192
    else if fileSize < 100 * MIB then 32768
    else MAX_CHUNK_SIZE
  }

  /** A larger file never gets a smaller chunk size. */
  lemma ChunkSizeMonotone(a: nat, b: nat)
    requires a <= b
    ensures ChunkSize(a) <= ChunkSize(b)
  {
  }

  /** The successive results of `f.read(size)` on a file holding `s`, up to
      the empty read that ends the loop. */
  function Chunks(s: seq<byte>, size: nat): (r: seq<seq<byte>>)
    requires size > 0
    ensures Concat(r) == s
    ensures forall k :: 0 <= k < |r| ==> 0 < |r[k]| <= size
    decreases |s|
  {
    if s == [] then []
    else if |s| <= size then
      assert [s][1..] == [];
      [s]
    else [s[..size]] + Chunks(s[size..], size)
  }

  /** Every read but the last is a full one. */
  lemma {:induction false} ChunksFull(s: seq<byte>, size: nat)
    requires size > 0
    ensures var r := Chunks(s, size); forall k :: 0 <= k < |r| - 1 ==> |r[k]| == size
    decreases |s|
  {
    if |s| > size {
      ChunksFull(s[size..], size);
      var r := Chunks(s, size);
      assert forall k :: 1 <= k < |r| ==> r[k] == Chunks(s[size..], size)[k - 1];
    }
  }

  /** Every chunk fits in one `recv(MAX_CHUNK_SIZE)` of the receiver. */
  lemma ChunksFitReceiveBuffer(content: seq<byte>)
    ensures var r := Chunks(content, ChunkSize(|content|));
      forall k :: 0 <= k < |r| ==> |r[k]| <= MAX_CHUNK_SIZE
  {
  }

  /** The read at offset `pos` of a file holding `s`, and the reads after it. */
  lemma ChunksAt(s: seq<byte>, size: nat, pos: nat, end: nat)
    requires size > 0 && pos < |s|
    requires end == if pos + size < |s| then pos + size else |s|
    ensures Chunks(s[pos..], size) == [s[pos..end]] + Chunks(s[end..], size)
  {
    var t := s[pos..];
    assert s[pos..end] == t[..end - pos];
    assert s[end..] == t[end - pos..];
    if |t| <= size {
      assert t[..|t|] == t;
      assert t[|t|..] == [];
    }
  }

  /** The chunks of the file, in the order `send_file` reads them. */
  function FileChunks(content: seq<byte>): seq<seq<byte>>
  {
    Chunks(content, ChunkSize(|content|))
  }

  /** `send_file` on a file holding `content`: the chunks under the retry
      policy; if none is abandoned, one unguarded `sendall` of the marker,
      made as the connection's next attempt. The result is complete when the
      marker got through. */
  function FileSend(content: seq<byte>, failing: set<nat>): Transmission
  {
    var t := Transmit(FileChunks(content), failing, 0, 0);
    if !t.complete then t
    else
      var marker := Attempt(END_OF_FILE, |t.trace| !in failing);
      Transmission(t.trace + [marker], marker.delivered)
  }

  /** What the peer of `send_file` reads: the first chunks, in order, then
      the marker if every chunk got through; the send is complete exactly
      when the whole file and the marker got through. */
  lemma FileSendDelivers(content: seq<byte>, failing: set<nat>)
    ensures var t := FileSend(content, failing);
      var d := Delivered(t.trace);
      && ((|d| <= |FileChunks(content)| && d == FileChunks(content)[..|d|]) || d == FileChunks(content) + [END_OF_FILE])
      && (t.complete <==> d == FileChunks(content) + [END_OF_FILE])
  {
    var chunks := FileChunks(content);
    var c := Transmit(chunks, failing, 0, 0);
    TransmitDelivers(chunks, failing, 0, 0);
    if c.complete {
      var marker := Attempt(END_OF_FILE, |c.trace| !in failing);
      DeliveredAppend(c.trace, [marker]);
      assert [marker][1..] == [];
      assert Delivered(c.trace + [marker]) == chunks + Got(marker);
    } else {
      assert |Delivered(c.trace)| < |chunks|;
    }
  }

  /** A chunk that exhausts its retries ends `send_file` without the marker:
      the last MAX_RETRIES attempts all carried that chunk and failed. */
  lemma FileSendAbandons(content: seq<byte>, failing: set<nat>)
    requires !Transmit(FileChunks(content), failing, 0, 0).complete
    ensures var t := FileSend(content, failing);
      var d := |Delivered(t.trace)|;
      && !t.complete
      && d < |FileChunks(content)|
      && EndsWithFailures(t.trace, MAX_RETRIES, FileChunks(content)[d])
  {
    TransmitAbandons(FileChunks(content), failing, 0, 0);
  }

  /** Over a connection where no send fails, the peer reads exactly the
      bytes of the file followed by the marker. */
  lemma FileSendReliable(content: seq<byte>)
    ensures var t := FileSend(content, {});
      && t.complete
      && |t.trace| == |FileChunks(content)| + 1
      && t.trace[|t.trace| - 1] == Attempt(END_OF_FILE, true)
      && Delivered(t.trace) == FileChunks(content) + [END_OF_FILE]
      && Concat(Delivered(t.trace)) == content + END_OF_FILE
  {
    var chunks := FileChunks(content);
    TransmitReliable(chunks, {}, 0);
    FileSendDelivers(content, {});
    ConcatAppend(chunks, [END_OF_FILE]);
    ConcatOne(END_OF_FILE);
  }

  /** An empty file is sent as the marker alone, in one unguarded attempt. */
  lemma FileSendEmpty(failing: set<nat>)
    ensures FileSend([], failing) == Transmission([Attempt(END_OF_FILE, 0 !in failing)], 0 !in failing)
  {
    assert FileChunks([]) == [];
  }

  /** `send_file` keeps to the retry discipline: a failed chunk is tried
      again, at most MAX_RETRIES times in all, and MAX_RETRIES failures in a
      row end the transfer. */
  lemma FileSendFollowsPolicy(content: seq<byte>, failing: set<nat>)
    ensures FollowsRetryPolicy(FileSend(content, failing).trace)
  {
    var chunks := FileChunks(content);
    var c := Transmit(chunks, failing, 0, 0);
    TransmitFollowsPolicy(chunks, failing, 0, 0);
    if c.complete {
      var trace := FileSend(content, failing).trace;
      assert trace[..|c.trace|] == c.trace;
      if chunks == [] {
        assert |trace| == 1;
      } else {
        TransmitEndsDelivered(chunks, failing, 0, 0);
        var last := |c.trace| - 1;
        assert trace[last].delivered;
        forall i | 0 <= i < |trace| - 1 && !trace[i].delivered
          ensures trace[i + 1].payload == trace[i].payload
        {
          assert i < last;
          assert trace[i] == c.trace[i] && trace[i + 1] == c.trace[i + 1];
        }
        forall i | 0 <= i && i + MAX_RETRIES <= |trace|
          ensures !FailureRun(trace, i)
        {
          if i + MAX_RETRIES <= |c.trace| {
            assert FailureRun(trace, i) ==> FailureRun(c.trace, i);
          } else {
            assert i <= last < i + MAX_RETRIES;
          }
        }
      }
    }
  }

  /** `send_file`. `failing` scripts the connection; the result is the list
      of `sendall` attempts and whether the transfer went through to the end. */
  method SendFile(content: seq<byte>, failing: set<nat>) returns (t: Transmission)
    ensures t == FileSend(content, failing)
  {
    var size := ChunkSize(|content|);
    ghost var whole := Transmit(FileChunks(content), failing, 0, 0);
    var trace: seq<Attempt> := [];
    var pos := 0;
    while pos < |content|
      invariant pos <= |content|
      invariant whole == After(trace, Transmit(Chunks(content[pos..], size), failing, |trace|, 0))
      decreases |content| - pos
    {
      var end := if pos + size < |content| then pos + size else |content|;
      var chunk := content[pos..end];
      ChunksAt(content, size, pos, end);
      ghost var rest := Chunks(content[end..], size);
      var retries := 0;
      while retries < MAX_RETRIES
        invariant retries <= MAX_RETRIES
        invariant retries < MAX_RETRIES ==>
          whole == After(trace, Transmit([chunk] + rest, failing, |trace|, retries))
        invariant retries == MAX_RETRIES ==> whole == Transmission(trace, false)
        decreases MAX_RETRIES - retries
      {
        var sent := |trace| !in failing;
        TransmitStep(trace, chunk, rest, failing, retries);
        trace := trace + [Attempt(chunk, sent)];
        if sent {
          break;
        }
        retries := retries + 1;
      }
      if retries == MAX_RETRIES {
        return Transmission(trace, false);
      }
      pos := end;
    }
    assert content[pos..] == [];
    var marker := Attempt(END_OF_FILE, |trace| !in failing);
    trace := trace + [marker];
    t := Transmission(trace, marker.delivered);
  }

  /** One call of `sock.recv(MAX_CHUNK_SIZE)`: a buffer of bytes (empty once
      the peer has closed the connection), or a `socket.error`. */
  datatype RecvEvent = Data(bytes: seq<byte>) | RecvError

  /** How `recv_file` stands after the calls of a script: what it wrote to
      the file, whether it returned, and how many `recv` calls it made. */
  datatype Reception = Reception(file: seq<byte>, finished: bool, used: nat)

  /** `r` after `used` earlier calls that wrote `file`. */
  function Resume(file: seq<byte>, used: nat, r: Reception): Reception
  {
    Reception(file + r.file, r.finished, used + r.used)
  }

  /** A buffer that holds the marker. */
  predicate HasMarker(e: RecvEvent)
  {
    e.Data? && Contains(e.bytes, END_OF_FILE)
  }

  /** The bytes one `recv` call hands over: none for an error. */
  function BytesOf(e: RecvEvent): seq<byte>
  {
    if e.Data? then e.bytes else []
  }

  /** A reception that returned after reading the first buffer holding the
      marker, or that read the whole script, which holds no such buffer. */
  predicate StopsAtFirstMarker(script: seq<RecvEvent>, r: Reception)
  {
    && r.used <= |script|
    && (r.finished ==> 0 < r.used && HasMarker(script[r.used - 1]))
    && (!r.finished ==> r.used == |script|)
    && (forall j :: 0 <= j < |script| && (j < r.used - 1 || !r.finished) ==> !HasMarker(script[j]))
  }

  /** `recv_file` over a script of `recv` results. A buffer holding the marker
      is written with every occurrence of the marker deleted, and ends the
      transfer; any other buffer is written whole; an error is retried (after
      MAX_RETRIES errors in a row the outer loop starts a fresh count, so the
      receiver never gives up). When the script runs out the receiver is
      still waiting in `recv`. */
  function Receive(script: seq<RecvEvent>): (r: Reception)
    ensures r.used <= |script|
    ensures !r.finished ==> r.used == |script|
  {
    if script == [] then Reception([], false, 0)
    else if HasMarker(script[0]) then Reception(RemoveAll(script[0].bytes, END_OF_FILE), true, 1)
    else Resume(BytesOf(script[0]), 1, Receive(script[1..]))
  }

  /** `recv_file` returns exactly after the first buffer holding the marker;
      when no buffer holds it, it reads the whole script and waits. */
  lemma {:induction false} ReceiveStopsAtFirst(script: seq<RecvEvent>)
    ensures StopsAtFirstMarker(script, Receive(script))
  {
    if script != [] && !HasMarker(script[0]) {
      var rest := script[1..];
      ReceiveStopsAtFirst(rest);
      forall j | 0 <= j < |script| && (j < Receive(script).used - 1 || !Receive(script).finished)
        ensures !HasMarker(script[j])
      {
        if j > 0 {
          assert script[j] == rest[j - 1];
        }
      }
    }
  }

  /** The bytes of the buffers a script delivers, in order. */
  function DataBytes(script: seq<RecvEvent>): seq<byte>
  {
    if script == [] then [] else BytesOf(script[0]) + DataBytes(script[1..])
  }

  /** Until a buffer holds the marker the receiver writes every buffer whole
      and goes on reading. */
  lemma {:induction false} ReceiveAppend(a: seq<RecvEvent>, b: seq<RecvEvent>)
    requires forall j :: 0 <= j < |a| ==> !HasMarker(a[j])
    ensures Receive(a + b) == Resume(DataBytes(a), |a|, Receive(b))
  {
    if a == [] {
      assert a + b == b;
    } else {
      assert (a + b)[0] == a[0];
      assert (a + b)[1..] == a[1..] + b;
      ReceiveAppend(a[1..], b);
      var x := BytesOf(a[0]);
      assert Receive(a + b) == Resume(x, 1, Receive(a[1..] + b));
      assert x + (DataBytes(a[1..]) + Receive(b).file) == DataBytes(a) + Receive(b).file;
    }
  }

  /** A script in which no buffer holds the marker leaves the receiver
      waiting, with every byte it read written to the file. */
  lemma ReceiveWaits(script: seq<RecvEvent>)
    requires forall j :: 0 <= j < |script| ==> !HasMarker(script[j])
    ensures Receive(script) == Reception(DataBytes(script), false, |script|)
  {
    ReceiveAppend(script, []);
    assert script + [] == script;
  }

  /** The first buffer holding the marker ends the transfer: the file is the
      earlier buffers followed by that buffer with the marker deleted, and
      nothing after it is read. */
  lemma ReceiveStopsAtMarker(script: seq<RecvEvent>, k: nat)
    requires k < |script| && HasMarker(script[k])
    requires forall j :: 0 <= j < k ==> !HasMarker(script[j])
    ensures Receive(script) ==
      Reception(DataBytes(script[..k]) + RemoveAll(script[k].bytes, END_OF_FILE), true, k + 1)
  {
    var front, rest := script[..k], script[k..];
    SplitAt(script, k);
    assert Receive(rest) == Reception(RemoveAll(script[k].bytes, END_OF_FILE), true, 1) by {
      assert rest[0] == script[k];
    }
    assert forall j :: 0 <= j < |front| ==> !HasMarker(front[j]) by {
      forall j | 0 <= j < |front| ensures !HasMarker(front[j]) {
        assert front[j] == script[j];
      }
    }
    ReceiveAppend(front, rest);
  }

  /** A `recv` call at position `used` of the script whose buffer holds the
      marker: the receiver writes it without the marker and returns. */
  lemma ReceiveStepMarker(script: seq<RecvEvent>, file: seq<byte>, used: nat)
    requires used < |script| && HasMarker(script[used])
    ensures Resume(file, used, Receive(script[used..]))
         == Reception(file + RemoveAll(script[used].bytes, END_OF_FILE), true, used + 1)
  {
    assert script[used..][0] == script[used];
  }

  /** Any other `recv` call at position `used`: the receiver writes what it
      got (nothing for an error) and reads on. */
  lemma ReceiveStepPlain(script: seq<RecvEvent>, file: seq<byte>, used: nat)
    requires used < |script| && !HasMarker(script[used])
    ensures Resume(file, used, Receive(script[used..]))
         == Resume(file + BytesOf(script[used]), used + 1, Receive(script[used + 1..]))
  {
    assert script[used..][0] == script[used];
    assert script[used..][1..] == script[used + 1..];
  }

  /** A `recv` call at position `used` that raises: nothing is written and
      the receiver reads on. */
  lemma ReceiveStepError(script: seq<RecvEvent>, file: seq<byte>, used: nat)
    requires used < |script| && script[used].RecvError?
    ensures Resume(file, used, Receive(script[used..]))
         == Resume(file, used + 1, Receive(script[used + 1..]))
  {
    ReceiveStepPlain(script, file, used);
    assert file + BytesOf(script[used]) == file;
  }

  /** `recv_file`. `script` lists what the successive `recv` calls return. */
  method RecvFile(script: seq<RecvEvent>) returns (r: Reception)
    ensures r == Receive(script)
  {
    ghost var whole := Receive(script);
    var file: seq<byte> := [];
    var used := 0;
    assert script[0..] == script;
    while used < |script|
      invariant used <= |script|
      invariant whole == Resume(file, used, Receive(script[used..]))
      decreases |script| - used
    {
      ghost var start := used;
      var retries := 0;
      while retries < MAX_RETRIES && used < |script|
        invariant start + retries <= used <= |script|
        invariant whole == Resume(file, used, Receive(script[used..]))
        decreases MAX_RETRIES - retries
      {
        match script[used] {
          case Data(data) =>
            if Contains(data, END_OF_FILE) {
              ReceiveStepMarker(script, file, used);
              file := file + RemoveAll(data, END_OF_FILE);
              return Reception(file, true, used + 1);
            }
            ReceiveStepPlain(script, file, used);
            file := file + data;
            used := used + 1;
            break;
          case RecvError =>
            ReceiveStepError(script, file, used);
            used := used + 1;
            retries := retries + 1;
        }
      }
      assert start < used;
    }
    r := Reception(file, false, used);
  }

  /** Content the marker can be appended to without creating an earlier
      occurrence of it: the content holds no marker and does not end with
      the marker's first ten bytes (whose last byte, 'E', would complete a
      marker with the first byte of the appended one). */
  predicate MarkerFree(content: seq<byte>)
  {
    && !Contains(content, END_OF_FILE)
    && !(|content| >= 10 && content[|content| - 10..] == END_OF_FILE[..10])
  }

  lemma MarkerFreeSuffix(content: seq<byte>, m: nat)
    requires MarkerFree(content) && m <= |content|
    ensures MarkerFree(content[m..])
  {
    assert content[m..|content|] == content[m..];
    if Contains(content[m..], END_OF_FILE) {
      ContainsInSlice(content, m, |content|, END_OF_FILE);
    }
    var t := content[m..];
    if |t| >= 10 {
      assert t[|t| - 10..] == content[|content| - 10..];
    }
  }

  /** Marker-free content followed by the marker does not start with the
      marker; the marker's only self-overlap is its one-byte border 'E'. */
  lemma NoMarkerAtFront(c: seq<byte>)
    requires MarkerFree(c) && c != []
    ensures !OccursAt(c + END_OF_FILE, END_OF_FILE, 0)
  {
    var s := c + END_OF_FILE;
    if |c| >= 11 {
      assert s[..11] == c[..11];
      assert !OccursAt(c, END_OF_FILE, 0);
    } else if |c| == 10 {
      assert s[..11][..10] == c;
    } else {
      assert s[..11][|c|] == 69;
      assert END_OF_FILE[|c|] != 69;
    }
  }

  /** Deleting the marker from marker-free content followed by the marker
      gives back the content. */
  lemma RemoveMarkerTail(c: seq<byte>)
    requires MarkerFree(c)
    ensures RemoveAll(c + END_OF_FILE, END_OF_FILE) == c
  {
    forall k | 0 <= k < |c|
      ensures !OccursAt(c + END_OF_FILE, END_OF_FILE, k)
    {
      MarkerFreeSuffix(c, k);
      NoMarkerAtFront(c[k..]);
      assert (c + END_OF_FILE)[k..] == c[k..] + END_OF_FILE;
    }
    RemoveAllTail(c, END_OF_FILE);
  }

  /** The script of `recv` calls that return the given buffers, in order. */
  function Buffers(buffers: seq<seq<byte>>): (script: seq<RecvEvent>)
    ensures |script| == |buffers|
  {
    seq(|buffers|, i requires 0 <= i < |buffers| => Data(buffers[i]))
  }

  lemma {:induction false} BuffersBytes(buffers: seq<seq<byte>>)
    ensures DataBytes(Buffers(buffers)) == Concat(buffers)
  {
    if buffers != [] {
      assert Buffers(buffers)[1..] == Buffers(buffers[1..]);
      BuffersBytes(buffers[1..]);
    }
  }

  /** The file round trip: however the stream of marker-free content and
      the marker is cut into `recv` buffers, as long as the marker arrives
      within the last one, `recv_file` writes exactly the content, returns,
      and reads nothing more. */
  lemma FileRoundTrip(content: seq<byte>, buffers: seq<seq<byte>>)
    requires MarkerFree(content)
    requires buffers != [] && Concat(buffers) == content + END_OF_FILE
    requires |buffers[|buffers| - 1]| >= |END_OF_FILE|
    ensures Receive(Buffers(buffers)) == Reception(content, true, |buffers|)
  {
    var n := |buffers| - 1;
    ConcatSplitLast(buffers, content, END_OF_FILE);
    var front := Concat(buffers[..n]);
    var m := |front|;
    var tail := content[m..];
    MarkerFreeSuffix(content, m);
    RemoveMarkerTail(tail);
    if Contains(front, END_OF_FILE) {
      ContainsInSlice(content, 0, m, END_OF_FILE);
    }
    ConcatAvoids(buffers[..n], END_OF_FILE);
    var script := Buffers(buffers);
    forall j | 0 <= j < n
      ensures !HasMarker(script[j])
    {
      assert script[j] == Data(buffers[..n][j]);
    }
    assert OccursAt(buffers[n], END_OF_FILE, |tail|);
    ReceiveStopsAtMarker(script, n);
    assert script[..n] == Buffers(buffers[..n]);
    BuffersBytes(buffers[..n]);
  }

  /** End to end: when `send_file` goes through to the end, whatever sends
      failed and were retried on the way, the receiver of what got through
      writes back the file and returns after the last buffer, whenever the
      content is marker-free and the marker is not split across two reads. */
  lemma TransferRoundTrip(content: seq<byte>, failing: set<nat>, buffers: seq<seq<byte>>)
    requires MarkerFree(content) && FileSend(content, failing).complete
    requires buffers != [] && Concat(buffers) == Concat(Delivered(FileSend(content, failing).trace))
    requires |buffers[|buffers| - 1]| >= |END_OF_FILE|
    ensures Receive(Buffers(buffers)) == Reception(content, true, |buffers|)
  {
    FileSendDelivers(content, failing);
    ConcatAppend(FileChunks(content), [END_OF_FILE]);
    ConcatOne(END_OF_FILE);
    FileRoundTrip(content, buffers);
  }

  /** When `send_file` gives up on a chunk, the receiver of what got through
      writes a prefix of the file and is still waiting for the marker
      however the bytes are cut into buffers, so the upload stays truncated
      and no "saved" reply follows. */
  lemma TransferAbandoned(content: seq<byte>, failing: set<nat>, buffers: seq<seq<byte>>)
    requires !Contains(content, END_OF_FILE) && !FileSend(content, failing).complete
    requires Concat(buffers) == Concat(Delivered(FileSend(content, failing).trace))
    ensures var r := Receive(Buffers(buffers));
      && !r.finished && r.used == |buffers|
      && |r.file| <= |content| && r.file == content[..|r.file|]
  {
    var chunks := FileChunks(content);
    var d := Delivered(FileSend(content, failing).trace);
    FileSendDelivers(content, failing);
    assert d == chunks[..|d|];
    ConcatPrefix(chunks, |d|);
    var m := |Concat(buffers)|;
    assert Concat(buffers) == content[..m];
    if Contains(content[..m], END_OF_FILE) {
      ContainsInSlice(content, 0, m, END_OF_FILE);
    }
    ConcatAvoids(buffers, END_OF_FILE);
    var script := Buffers(buffers);
    forall j | 0 <= j < |script|
      ensures !HasMarker(script[j])
    {
      assert script[j] == Data(buffers[j]);
    }
    ReceiveWaits(script);
    BuffersBytes(buffers);
  }

  /** A `socket.error` anywhere in the script changes neither what the
      receiver writes nor whether it returns: errors are only retried. */
  lemma {:induction false} ReceiveSkipsError(a: seq<RecvEvent>, b: seq<RecvEvent>)
    ensures Receive(a + [RecvError] + b).file == Receive(a + b).file
    ensures Receive(a + [RecvError] + b).finished == Receive(a + b).finished
  {
    if a == [] {
      assert a + [RecvError] + b == [RecvError] + b;
      assert ([RecvError] + b)[1..] == b;
      assert a + b == b;
    } else {
      assert (a + [RecvError] + b)[0] == a[0];
      assert (a + b)[0] == a[0];
      if !HasMarker(a[0]) {
        assert (a + [RecvError] + b)[1..] == a[1..] + [RecvError] + b;
        assert (a + b)[1..] == a[1..] + b;
        ReceiveSkipsError(a[1..], b);
      }
    }
  }

  /** Content ending with "END_OF_FIL" does not survive the trip when its
      last bytes share a buffer with the marker: the 'E' that completes the
      earlier occurrence is taken from the marker, and "ND_OF_FILE" is
      written in place of the content. */
  lemma ReceiveBorderCase()
    ensures var content := END_OF_FILE[..10];
      && !Contains(content, END_OF_FILE)
      && Receive(Buffers([content + END_OF_FILE])).file == END_OF_FILE[1..]
      && END_OF_FILE[1..] != content
  {
    var content := END_OF_FILE[..10];
    var s := content + END_OF_FILE;
    assert s[..11] == END_OF_FILE;
    assert s[11..] == END_OF_FILE[1..];
    assert !OccursAt(END_OF_FILE[1..], END_OF_FILE, 0);
    assert RemoveAll(s, END_OF_FILE) == END_OF_FILE[1..];
    assert OccursAt(s, END_OF_FILE, 0);
    ReceiveStopsAtMarker(Buffers([s]), 0);
    assert END_OF_FILE[1..][0] != content[0];
  }
}
