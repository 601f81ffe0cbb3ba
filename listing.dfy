/** Directory listings over one connection (utils.py `send_listing` and
    `recv_listing`): the sender wraps the file names in begin and end
    markers and sends the text in slices under the retry policy; the
    receiver gathers decoded buffers until one holds the end marker and
    shows what lies between the markers, stripped. */
module Listing {
  import opened Seqs
  import opened Text
  import opened Retry

  /** Characters per slice of the listing text. */
  const CHUNK_SIZE: nat := 500

  const LIST_BEGIN_MARKER: string := "!!!!!!!!!!!!!!!LIST_BEGIN!!!!!!!!!!!!!!!"
  const LIST_END_MARKER: string := "!!!!!!!!!!!!!!!!LIST_END!!!!!!!!!!!!!!!!"

  /** The text `send_listing` sends for the directory entries `files`. */
  function ListingText(files: seq<string>): string
  {
    LIST_BEGIN_MARKER + "\n" + Join("\n", files) + "\n" + LIST_END_MARKER
  }

  /** Where the slice of the text starting at `sent` ends: CHUNK_SIZE
      characters on, or the end of the text. */
  function SliceEnd(len: nat, sent: nat): (end: nat)
    requires sent < len
    ensures sent < end <= len && end - sent <= CHUNK_SIZE
    ensures end < len ==> end - sent == CHUNK_SIZE
  {
    if sent + CHUNK_SIZE < len then sent + CHUNK_SIZE else len
  }

  /** The bytes sent for the slice starting at character `sent`. */
  function Slice(text: string, sent: nat): (r: seq<byte>)
    requires sent < |text|
    ensures |r| >= SliceEnd(|text|, sent) - sent > 0
  {
    Utf8(text[sent..SliceEnd(|text|, sent)])
  }

  /** The encoded slices `send_listing` sends from character `sent` on: each
      slice is the next CHUNK_SIZE characters (fewer at the end), encoded,
      and the next one starts as many characters further on as the slice
      had bytes. */
  function ListingSlices(text: string, sent: nat): seq<seq<byte>>
    decreases |text| - sent
  {
    if sent >= |text| then [] else [Slice(text, sent)] + ListingSlices(text, sent + |Slice(text, sent)|)
  }

  /** `send_listing` for the entries `files`, with `failing` scripting the
      connection. */
  function ListingSend(files: seq<string>, failing: set<nat>): Transmission
  {
    Transmit(ListingSlices(ListingText(files), 0), failing, 0, 0)
  }

  /** The slices from `sent` on: the slice there, then those from `next`,
      the character as many on as the slice had bytes. */
  lemma ListingSlicesAt(text: string, sent: nat, next: nat)
    requires sent < |text| && next == sent + |Slice(text, sent)|
    ensures ListingSlices(text, sent) == [Slice(text, sent)] + ListingSlices(text, next)
  {
  }

  /** `send_listing`: it builds the listing text and sends it slice by
      slice. The result is the list of `sendall` attempts and whether every
      slice got through. */
  method SendListing(files: seq<string>, failing: set<nat>) returns (t: Transmission)
    ensures t == ListingSend(files, failing)
  {
    t := SendText(ListingText(files), failing);
  }

  /** The sending loops of `send_listing` over the listing text: each slice
      is tried up to MAX_RETRIES times, and one that fails that often ends
      the call. */
  method SendText(listing: string, failing: set<nat>) returns (t: Transmission)
    ensures t == Transmit(ListingSlices(listing, 0), failing, 0, 0)
  {
    ghost var whole := Transmit(ListingSlices(listing, 0), failing, 0, 0);
    var trace: seq<Attempt> := [];
    AfterNothing(whole);
    var totalSent: nat := 0;
    while totalSent < |listing|
      invariant whole == After(trace, Transmit(ListingSlices(listing, totalSent), failing, |trace|, 0))
      decreases |listing| - totalSent
    {
      var chunk := Slice(listing, totalSent);
      ghost var start, next := totalSent, totalSent + |chunk|;
      ghost var rest := ListingSlices(listing, next);
      ListingSlicesAt(listing, start, next);
      var retries := 0;
      while retries < MAX_RETRIES
        invariant totalSent == start
        invariant retries <= MAX_RETRIES
        invariant retries < MAX_RETRIES ==>
          whole == After(trace, Transmit([chunk] + rest, failing, |trace|, retries))
        invariant retries == MAX_RETRIES ==> whole == Transmission(trace, false)
        decreases MAX_RETRIES - retries
      {
        var sent := |trace| !in failing;
        TransmitStep(trace, chunk, rest, failing, retries);
        trace := trace + [Attempt(chunk, sent)];
        if sent {
          totalSent := totalSent + |chunk|;
          break;
        }
        retries := retries + 1;
      }
      if retries == MAX_RETRIES {
        return Transmission(trace, false);
      }
      assert totalSent == next;
    }
    t := Transmission(trace, true);
  }

  /** The bytes of the slices from `sent` on: the slice there, then the rest. */
  lemma ListingConcatAt(text: string, sent: nat, next: nat)
    requires sent < |text| && next == sent + |Slice(text, sent)|
    ensures Concat(ListingSlices(text, sent)) == Slice(text, sent) + Concat(ListingSlices(text, next))
  {
    ListingSlicesAt(text, sent, next);
    ConcatCons(Slice(text, sent), ListingSlices(text, next));
  }

  /** For ASCII text the slices are contiguous: laid end to end they are
      the encoding of the text from `sent` on, CHUNK_SIZE bytes apiece but
      the last. */
  lemma {:induction false} ListingSlicesAscii(text: string, sent: nat)
    requires IsAscii(text) && sent <= |text|
    ensures Concat(ListingSlices(text, sent)) == Utf8(text[sent..])
    ensures forall k :: 0 <= k < |ListingSlices(text, sent)| ==> |ListingSlices(text, sent)[k]| <= CHUNK_SIZE
    decreases |text| - sent
  {
    if sent < |text| {
      var end := SliceEnd(|text|, sent);
      AsciiSlice(text, sent, end);
      Utf8Ascii(text[sent..end]);
      assert |Slice(text, sent)| == end - sent;
      ListingConcatAt(text, sent, end);
      ListingSlicesAt(text, sent, end);
      ListingSlicesAscii(text, end);
      SliceSplit(text, sent, end);
    } else {
      assert text[sent..] == [];
    }
  }

  lemma AsciiSlice(text: string, lo: nat, hi: nat)
    requires IsAscii(text) && lo <= hi <= |text|
    ensures IsAscii(text[lo..hi])
  {
    assert forall k :: 0 <= k < hi - lo ==> text[lo..hi][k] == text[lo + k];
  }

  /** Encoding the text from `lo` on, split at `mid`. */
  lemma SliceSplit(text: string, lo: nat, mid: nat)
    requires lo <= mid <= |text|
    ensures Utf8(text[lo..]) == Utf8(text[lo..mid]) + Utf8(text[mid..])
  {
    assert text[lo..] == text[lo..mid] + text[mid..];
    Utf8Append(text[lo..mid], text[mid..]);
  }

  /** The slices never carry more than the encoding of the text they start
      in. */
  lemma {:induction false} ListingSlicesBound(text: string, sent: nat)
    requires sent <= |text|
    ensures |Concat(ListingSlices(text, sent))| <= |Utf8(text[sent..])|
    decreases |text| - sent
  {
    if sent < |text| {
      var end := SliceEnd(|text|, sent);
      var first := |Slice(text, sent)|;
      var next := sent + first;
      ListingConcatAt(text, sent, next);
      SliceSplit(text, sent, end);
      var sentBytes := |Concat(ListingSlices(text, next))|;
      assert |Concat(ListingSlices(text, sent))| == first + sentBytes;
      assert |Utf8(text[sent..])| == first + |Utf8(text[end..])|;
      if next < |text| {
        ListingSlicesBound(text, next);
        SliceSplit(text, end, next);
        assert sentBytes <= |Utf8(text[end..])|;
      } else {
        assert ListingSlices(text, next) == [];
        assert sentBytes == 0;
      }
    } else {
      assert text[sent..] == [];
    }
  }

  /** Characters are lost when the first slice holds a non-ASCII character
      and the text goes on beyond it: the next slice starts as many
      characters on as the first had bytes, so the characters in between are
      never sent, and the receiver gets fewer bytes than the encoded text. */
  lemma ListingSkipsAfterWideSlice(text: string)
    requires |text| > CHUNK_SIZE && !IsAscii(text[..CHUNK_SIZE])
    ensures |Concat(ListingSlices(text, 0))| < |Utf8(text)|
  {
    assert text[0..CHUNK_SIZE] == text[..CHUNK_SIZE];
    var next := |Slice(text, 0)|;
    Utf8Length(text[..CHUNK_SIZE]);
    assert next > CHUNK_SIZE;
    ListingConcatAt(text, 0, next);
    assert text[0..] == text;
    SliceSplit(text, 0, CHUNK_SIZE);
    if next < |text| {
      SliceSplit(text, CHUNK_SIZE, next);
      ListingSlicesBound(text, next);
    } else {
      assert ListingSlices(text, next) == [];
    }
  }

  /** Over a connection where no send fails, every slice goes through on its
      first attempt; for an ASCII listing the bytes that arrive are the
      encoded listing text, in slices of at most CHUNK_SIZE bytes. */
  lemma ListingSendReliable(files: seq<string>)
    requires IsAscii(ListingText(files))
    ensures var t := ListingSend(files, {});
      && t.complete
      && Delivered(t.trace) == ListingSlices(ListingText(files), 0)
      && Concat(Delivered(t.trace)) == Utf8(ListingText(files))
      && forall k :: 0 <= k < |Delivered(t.trace)| ==> |Delivered(t.trace)[k]| <= CHUNK_SIZE
  {
    var text := ListingText(files);
    TransmitReliable(ListingSlices(text, 0), {}, 0);
    TransmitDelivers(ListingSlices(text, 0), {}, 0, 0);
    ListingSlicesAscii(text, 0);
    assert text[0..] == text;
  }

  /** One call of `sock.recv(CHUNK_SIZE).decode('utf-8')`: the decoded
      text, or a failure (a socket error or bytes that do not decode). */
  datatype ListingEvent = Chunk(text: string) | Fault

  /** How `recv_listing` ends: it shows the listing content, it fails, or it
      is still waiting for the end marker when the script runs out. */
  datatype ListingOutcome = Shown(content: string) | Failed | Waiting

  predicate HasEnd(e: ListingEvent)
  {
    e.Chunk? && Contains(e.text, LIST_END_MARKER)
  }

  /** What `recv_listing` shows for the text gathered before the end
      marker: every begin marker deleted, then white space stripped. */
  function Display(data: string): string
  {
    Strip(RemoveAll(data, LIST_BEGIN_MARKER))
  }

  /** The text gathered from a buffer that holds the end marker: what comes
      before its first occurrence. */
  function BeforeEnd(chunk: string): (r: string)
    requires Contains(chunk, LIST_END_MARKER)
    ensures r == chunk[..Find(chunk, LIST_END_MARKER)]
    ensures !Contains(r, LIST_END_MARKER)
  {
    FindPrefixAvoids(chunk, LIST_END_MARKER);
    chunk[..Find(chunk, LIST_END_MARKER)]
  }

  /** `recv_listing` reading the events of `script` after gathering `data`. */
  function ListingFrom(script: seq<ListingEvent>, data: string): ListingOutcome
  {
    if script == [] then Waiting
    else match script[0]
      case Fault => Failed
      case Chunk(chunk) =>
        if Contains(chunk, LIST_END_MARKER) then Shown(Display(data + BeforeEnd(chunk)))
        else ListingFrom(script[1..], data + chunk)
  }

  /** `recv_listing` over the events of `script`. */
  function ListingReceive(script: seq<ListingEvent>): ListingOutcome
  {
    ListingFrom(script, "")
  }

  lemma ListingFromStep(script: seq<ListingEvent>, i: nat, data: string)
    requires i < |script| && script[i].Chunk? && !HasEnd(script[i])
    ensures ListingFrom(script[i..], data) == ListingFrom(script[i + 1..], data + script[i].text)
  {
    assert script[i..][1..] == script[i + 1..];
  }

  /** `recv_listing`. */
  method RecvListing(script: seq<ListingEvent>) returns (r: ListingOutcome)
    ensures r == ListingReceive(script)
  {
    var data := "";
    var i := 0;
    while i < |script|
      invariant i <= |script|
      invariant ListingReceive(script) == ListingFrom(script[i..], data)
    {
      match script[i]
      case Fault =>
        return Failed;
      case Chunk(chunk) =>
        if Contains(chunk, LIST_END_MARKER) {
          data := data + chunk[..Find(chunk, LIST_END_MARKER)];
          return Shown(Strip(RemoveAll(data, LIST_BEGIN_MARKER)));
        }
        ListingFromStep(script, i, data);
        data := data + chunk;
      i := i + 1;
    }
    return Waiting;
  }

  /** The text of the events of `script` that are buffers. */
  function Texts(script: seq<ListingEvent>): string
  {
    if script == [] then [] else (if script[0].Chunk? then script[0].text else []) + Texts(script[1..])
  }

  /** Buffers without the end marker are gathered in order. */
  lemma {:induction false} ListingFromPlain(a: seq<ListingEvent>, b: seq<ListingEvent>, data: string)
    requires forall k :: 0 <= k < |a| ==> a[k].Chunk? && !HasEnd(a[k])
    ensures ListingFrom(a + b, data) == ListingFrom(b, data + Texts(a))
  {
    if a == [] {
      assert a + b == b;
      assert data + [] == data;
    } else {
      assert (a + b)[0] == a[0];
      assert (a + b)[1..] == a[1..] + b;
      ListingFromPlain(a[1..], b, data + a[0].text);
      assert data + a[0].text + Texts(a[1..]) == data + Texts(a);
    }
  }

  /** `recv_listing` stops at the first buffer with the end marker, showing
      what came before it; the first failure before any such buffer ends it
      with nothing shown; and it keeps waiting while neither has come. */
  lemma ListingReceiveEnds(script: seq<ListingEvent>, k: nat)
    requires k <= |script|
    requires forall j :: 0 <= j < k ==> script[j].Chunk? && !HasEnd(script[j])
    ensures k < |script| && HasEnd(script[k]) ==>
      ListingReceive(script) == Shown(Display(Texts(script[..k]) + BeforeEnd(script[k].text)))
    ensures k < |script| && script[k].Fault? ==> ListingReceive(script) == Failed
    ensures k == |script| ==> ListingReceive(script) == Waiting
  {
    assert script == script[..k] + script[k..];
    ListingFromPlain(script[..k], script[k..], "");
    assert "" + Texts(script[..k]) == Texts(script[..k]);
  }

  /** The events that deliver the given text buffers, in order. */
  function TextEvents(buffers: seq<string>): (script: seq<ListingEvent>)
    ensures |script| == |buffers|
  {
    seq(|buffers|, i requires 0 <= i < |buffers| => Chunk(buffers[i]))
  }

  lemma {:induction false} TextEventsTexts(buffers: seq<string>)
    ensures Texts(TextEvents(buffers)) == Concat(buffers)
  {
    if buffers != [] {
      assert TextEvents(buffers)[1..] == TextEvents(buffers[1..]);
      TextEventsTexts(buffers[1..]);
    }
  }

  /** Facts about the two markers: neither holds a line break, and the begin
      marker does not hold the end marker. */
  lemma MarkerFacts()
    ensures '\n' !in LIST_BEGIN_MARKER && '\n' !in LIST_END_MARKER
    ensures !Contains(LIST_BEGIN_MARKER, LIST_END_MARKER)
  {
    assert !OccursAt(LIST_BEGIN_MARKER, LIST_END_MARKER, 0) by {
      assert LIST_BEGIN_MARKER[15] != LIST_END_MARKER[15];
    }
  }

  /** File names with neither marker in them: the body of the listing
      contains neither marker. */
  lemma ListingBodyClean(files: seq<string>)
    requires forall k :: 0 <= k < |files| ==>
      !Contains(files[k], LIST_BEGIN_MARKER) && !Contains(files[k], LIST_END_MARKER)
    ensures !Contains(ListingBody(files), LIST_BEGIN_MARKER)
    ensures !Contains(ListingBody(files), LIST_END_MARKER)
  {
    MarkerFacts();
    WrappedJoinAvoids('\n', files, LIST_BEGIN_MARKER);
    WrappedJoinAvoids('\n', files, LIST_END_MARKER);
  }

  /** The listing text between the begin and the end marker. */
  function ListingBody(files: seq<string>): string
  {
    "\n" + Join("\n", files) + "\n"
  }

  /** The part of the listing text before the end marker. */
  function ListingHead(files: seq<string>): string
  {
    LIST_BEGIN_MARKER + ListingBody(files)
  }

  /** The listing text is its head followed by the end marker; the head
      ends with a line break. */
  lemma ListingTextSplit(files: seq<string>)
    ensures ListingText(files) == ListingHead(files) + LIST_END_MARKER
    ensures ListingHead(files)[|ListingHead(files)| - 1] == '\n'
  {
  }

  /** `recv_listing` shows the head of a listing whose body holds no begin
      marker as the joined file names. */
  lemma ListingHeadShown(files: seq<string>)
    requires !Contains(ListingBody(files), LIST_BEGIN_MARKER)
    ensures Display(ListingHead(files)) == Strip(Join("\n", files))
  {
    ShownBetweenBreaks(LIST_BEGIN_MARKER, Join("\n", files));
  }

  /** A marker, then text between two line breaks, with no marker after
      the first: deleting the marker and stripping gives the stripped text. */
  lemma ShownBetweenBreaks(marker: string, text: string)
    requires marker != [] && !Contains("\n" + text + "\n", marker)
    ensures Strip(RemoveAll(marker + ("\n" + text + "\n"), marker)) == Strip(text)
  {
    RemoveAllLead(marker, "\n" + text + "\n");
    assert AllSpace("\n");
    StripPadded("\n", text, "\n");
  }

  /** An end marker after the begin marker would have to lie in the body,
      since none can hold the line break that starts it. */
  lemma ListingHeadNoEnd(body: string)
    requires !Contains(body, LIST_END_MARKER) && body != [] && body[0] == '\n'
    ensures !Contains(LIST_BEGIN_MARKER + body, LIST_END_MARKER)
  {
    MarkerFacts();
    assert LIST_BEGIN_MARKER + body == LIST_BEGIN_MARKER + ['\n'] + body[1..];
    if Contains(body[1..], LIST_END_MARKER) {
      assert body[1..|body|] == body[1..];
      ContainsInSlice(body, 1, |body|, LIST_END_MARKER);
    }
    NotContainsAcross(LIST_BEGIN_MARKER, '\n', body[1..], LIST_END_MARKER);
  }

  /** In the last buffer, the end marker is found right after what is left
      of the head. */
  lemma LastBufferEnd(head: string, m: nat)
    requires m <= |head| && !Contains(head, LIST_END_MARKER)
    requires head != [] && head[|head| - 1] == '\n'
    ensures Contains(head[m..] + LIST_END_MARKER, LIST_END_MARKER)
    ensures Find(head[m..] + LIST_END_MARKER, LIST_END_MARKER) == |head| - m
  {
    MarkerFacts();
    var tail := head[m..];
    assert OccursAt(tail + LIST_END_MARKER, LIST_END_MARKER, |tail|);
    if m < |head| {
      var a := head[m..|head| - 1];
      assert tail == a + ['\n'];
      if Contains(a, LIST_END_MARKER) {
        ContainsInSlice(head, m, |head| - 1, LIST_END_MARKER);
      }
      FindAfterSeparator(a, '\n', LIST_END_MARKER);
      assert tail + LIST_END_MARKER == a + ['\n'] + LIST_END_MARKER;
    } else {
      assert tail + LIST_END_MARKER == LIST_END_MARKER;
      assert OccursAt(LIST_END_MARKER, LIST_END_MARKER, 0);
    }
  }

  /** Buffers carrying a head free of the end marker and then the end
      marker, the marker arriving whole in the last one: `recv_listing`
      shows the head. */
  lemma ReceiveHead(head: string, buffers: seq<string>)
    requires !Contains(head, LIST_END_MARKER) && head != [] && head[|head| - 1] == '\n'
    requires buffers != [] && Concat(buffers) == head + LIST_END_MARKER
    requires |buffers[|buffers| - 1]| >= |LIST_END_MARKER|
    ensures ListingReceive(TextEvents(buffers)) == Shown(Display(head))
  {
    var n := |buffers| - 1;
    ConcatSplitLast(buffers, head, LIST_END_MARKER);
    var front := Concat(buffers[..n]);
    var m := |front|;
    if Contains(front, LIST_END_MARKER) {
      ContainsInSlice(head, 0, m, LIST_END_MARKER);
    }
    ConcatAvoids(buffers[..n], LIST_END_MARKER);
    var script := TextEvents(buffers);
    forall j | 0 <= j < n
      ensures script[j].Chunk? && !HasEnd(script[j])
    {
      assert script[j] == Chunk(buffers[..n][j]);
    }
    LastBufferEnd(head, m);
    assert BeforeEnd(buffers[n]) == head[m..];
    ListingReceiveEnds(script, n);
    assert script[..n] == TextEvents(buffers[..n]);
    TextEventsTexts(buffers[..n]);
    assert head[..m] + head[m..] == head;
  }

  /** The listing round trip: when no file name holds a marker, however the
      listing text is cut into received buffers, as long as the end marker
      arrives whole in the last one, `recv_listing` shows the file names one
      per line with white space at the ends stripped. */
  lemma ListingRoundTrip(files: seq<string>, buffers: seq<string>)
    requires forall k :: 0 <= k < |files| ==>
      !Contains(files[k], LIST_BEGIN_MARKER) && !Contains(files[k], LIST_END_MARKER)
    requires buffers != [] && Concat(buffers) == ListingText(files)
    requires |buffers[|buffers| - 1]| >= |LIST_END_MARKER|
    ensures ListingReceive(TextEvents(buffers)) == Shown(Strip(Join("\n", files)))
  {
    ListingTextSplit(files);
    ListingBodyClean(files);
    ListingHeadNoEnd(ListingBody(files));
    ListingHeadShown(files);
    ReceiveHead(ListingHead(files), buffers);
  }
}
