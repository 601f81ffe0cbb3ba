# File transfer over TCP: framing, retries and request dispatch

This project models the core of a small TCP file-transfer tool and proves
properties of the model. The tool has three parts:

- a server that answers `put`, `get` and `list`;
- a client that issues one of those commands;
- shared transfer routines in `utils.py`.

The model covers the wire-level framing and the transfer logic:

- **Chunk size.** `calculate_chunk_size` picks the read size in four tiers of file size.
- **`send_file`.** Each chunk goes through a retry loop of at most three attempts. A chunk that fails three times aborts the transfer. The bytes `END_OF_FILE` are sent once at the end.
- **`recv_file`.** It appends buffers until one of them holds the marker. That buffer is written with every occurrence of the marker removed.
- **`send_listing` and `recv_listing`.** The directory listing is framed between two marker lines. It is sent in 500-character slices and gathered up to the end marker.
- **`handle_client`.** The server parses the request and dispatches it. It sends the "OK" and "Error" replies.
- **The client's `main`.** It builds the request line, tests the reply with `startswith("Error")`, and goes on to the transfer.

The socket and the file system are inputs.

- **Sending.** A set `failing` lists the send attempts, counted from 0 from the transfer's first `sendall`, whose `sendall` raises. Every other attempt gets through. A sender's result is a `Transmission`: the list of its attempts, plus whether it went through to the end.
- **Receiving.** A receiver reads a finite script of `recv` results. When the script runs out, the receiver is still waiting, since the Python loops have no other exit.
- **Files.** The file system is a map from existing paths to their contents. The directory listing is a sequence of names.

Each sender and receiver loop is a Dafny method with the same nested loops as the Python code. Each method is proved equal to a recursive specification function. The properties are lemmas about those functions:

- the retry discipline;
- what gets through when sends fail;
- the file round trip;
- the listing round trip;
- the request-line round trip between client and server.

Modules:

- `Seqs`: concatenation, search (`find`, `in`) and `replace` on sequences.
- `Text`: `str.strip`, `str.split(maxsplit=1)` and UTF-8 encoding.
- `Retry`: the retry loop shared by the senders.
- `Stream`: the chunk sizer, `send_file` and `recv_file`.
- `Listing`: `send_listing` and `recv_listing`.
- `Server`: `handle_client`.
- `Client`: `main`.

## Model

| member | source | states |
|---|---|---|
| Seqs.Find | utils.py:137 | `str.find`: -1 exactly when the pattern is absent, otherwise the first index where it occurs |
| Seqs.RemoveAll | utils.py:81 | `replace(marker, "")`: text without the marker is unchanged, and removing shortens text that holds it by at least the marker's length |
| Seqs.RemoveAllTail | utils.py:81 | when the marker occurs only at the end of `c + marker`, removing it gives back `c` |
| Seqs.FindPrefixAvoids | utils.py:137 | the text before the first occurrence of a pattern does not contain it |
| Seqs.RemoveAllLead | utils.py:142 | a leading marker followed by marker-free text is removed, and the text is unchanged |
| Seqs.JoinAvoids | utils.py:104 | names joined by a separator that is not in the pattern, where no name holds the pattern, do not hold it |
| Seqs.WrappedJoinAvoids | utils.py:104 | the same holds with a separator added at each end |
| Text.Strip | server.py:48 | `str.strip`: the result is a slice of the input, with only white space cut on either side, and neither of its ends is white space |
| Text.StripEmpty | server.py:48-49 | a request strips to nothing exactly when it is all white space |
| Text.StripPadded | server.py:48 | white space added around text does not change its strip |
| Text.SplitOnce | server.py:53 | `split(maxsplit=1)`: at most two parts, none exactly for all-white-space text, the first part a word, and the second non-empty and starting with a non-space |
| Text.SplitOnceOf | server.py:53 | a word, a run of white space and a rest that starts with a non-space split into the word and the whole rest, inner spaces included |
| Text.SplitOnceWord | server.py:53 | a lone word splits into itself |
| Text.EncodeChar | utils.py:107 | UTF-8 of one character: 1 to 4 bytes, and one byte, equal to the code, exactly for ASCII |
| Text.Utf8 | utils.py:107 | `encode('utf-8')` never yields fewer bytes than characters |
| Text.Utf8Length | utils.py:107-112 | the encoding has exactly one byte per character if and only if the text is ASCII |
| Text.Utf8Append | utils.py:107 | encoding distributes over concatenation |
| Retry.Delivered | utils.py:48 | the peer reads at most one payload per attempt |
| Retry.DeliveredAppend | utils.py:48 | what gets through of two runs of attempts is what gets through of each, in order |
| Retry.TransmitStep | utils.py:45-53 | one attempt: success moves to the next payload with a fresh count; a failure retries, or ends the transmission at the third failure |
| Retry.TransmitDelivers | utils.py:45-56 | the payloads that get through are the first ones, in order, each once, and the transmission is complete exactly when all of them get through |
| Retry.TransmitAbandons | utils.py:54-56 | an incomplete transmission ends with MAX_RETRIES failed attempts of the first payload that did not get through (that no longer run of failures occurs follows from `Retry.TransmitFollowsPolicy`) |
| Retry.DeliveredCons | utils.py:48 | the first attempt contributes its payload exactly when it got through |
| Retry.AbandonedAfterSent | utils.py:48-49 | a payload that got through, in front of an abandoned transmission of the rest, keeps the abandoned shape |
| Retry.AbandonedAfterFailure | utils.py:50-56 | a failed attempt in front of a transmission abandoned after one more failure keeps the abandoned shape |
| Retry.PolicyAfterSent | utils.py:48-49 | a payload that got through, in front of a transmission keeping the retry discipline, keeps it |
| Retry.PolicyAfterFailure | utils.py:50-53 | a failed attempt, retried by the transmission after it, keeps the retry discipline |
| Retry.TransmitEndsDelivered | utils.py:45-49 | a complete transmission of at least one payload ends with an attempt that got through |
| Retry.TransmitReliable | utils.py:45-49 | with no failing attempt, each payload goes through on its first attempt |
| Retry.TransmitFollowsPolicy | utils.py:45-56 | a failed attempt is followed by a retry of the same payload, and three failures in a row end the transmission |
| Stream.ChunkSize | utils.py:17-28 | the chunk size lies between 1024 and 65536, and each tier holds exactly its size range, with 1, 10 and 100 MiB in the higher tier |
| Stream.ChunkSizeMonotone | utils.py:20-28 | a larger file never gets a smaller chunk size |
| Stream.Chunks | utils.py:44 | the reads of `f.read(size)` are non-empty, at most `size` long, and concatenate to the file |
| Stream.ChunksFull | utils.py:44 | every read but the last is full |
| Stream.ChunksFitReceiveBuffer | utils.py:41-79 | every chunk fits in one `recv(MAX_CHUNK_SIZE)` |
| Stream.ChunksAt | utils.py:44 | the read at an offset, then the reads after it |
| Stream.FileSendDelivers | utils.py:44-57 | the receiver gets a prefix of the chunks, or all of them followed by the marker, and the transfer is complete exactly in the latter case |
| Stream.FileSendAbandons | utils.py:54-56 | a chunk that fails three times ends the call: nothing after it and no marker is sent |
| Stream.FileSendReliable | utils.py:44-57 | with no failures, every chunk is sent once, the last send is exactly `END_OF_FILE`, and the bytes sent are the file followed by the marker |
| Stream.FileSendEmpty | utils.py:44-57 | an empty file is sent as the marker alone, in one attempt without retry |
| Stream.FileSendFollowsPolicy | utils.py:45-57 | `send_file`'s attempts keep to the retry discipline |
| Stream.SendFile | utils.py:30-59 | the nested loops send exactly what `FileSend` describes |
| Stream.Receive | utils.py:75-88 | `recv_file` never reads past the script, and while it has not returned it has read all of it |
| Stream.ReceiveStopsAtFirst | utils.py:79-84 | `recv_file` returns exactly after reading the first buffer that holds the marker; if no buffer holds it, it has read the whole script and is still waiting |
| Stream.ReceiveAppend | utils.py:79-84 | until a marker arrives, every buffer is written whole and in order |
| Stream.ReceiveWaits | utils.py:75-88 | without a marker, errors never end the call: it writes every buffer and keeps waiting |
| Stream.ReceiveStopsAtMarker | utils.py:79-84 | the file is the buffers before the first one with the marker, then that one with every marker removed; nothing after it is read |
| Stream.ReceiveStepMarker | utils.py:80-82 | a buffer holding the marker is written without it and ends the call |
| Stream.ReceiveStepPlain | utils.py:83-84 | any other buffer is written whole and reading goes on |
| Stream.ReceiveStepError | utils.py:85-88 | a `socket.error` writes nothing and reading goes on |
| Stream.RecvFile | utils.py:64-90 | the loops, with `retries` reset by the outer loop, compute exactly `Receive` |
| Stream.MarkerFreeSuffix | utils.py:80 | a suffix of marker-free content is marker-free |
| Stream.NoMarkerAtFront | utils.py:80 | marker-free content followed by the marker does not start with the marker |
| Stream.RemoveMarkerTail | utils.py:81 | removing the marker from marker-free content followed by the marker gives back the content |
| Stream.Buffers | utils.py:79 | one `recv` result per buffer |
| Stream.BuffersBytes | utils.py:79-83 | the bytes those results carry are the buffers concatenated |
| Stream.FileRoundTrip | utils.py:57-83 | for content that is `MarkerFree` (no `END_OF_FILE` inside and no ending in "END_OF_FIL"), however the content and the marker are cut into buffers, the receiver writes exactly the content and returns after the last buffer, provided the marker arrives whole in the last buffer |
| Stream.TransferRoundTrip | utils.py:44-83 | for `MarkerFree` content, whenever `send_file` goes through to the end, failed and retried sends included, what got through is received as exactly the file, and the receiver returns after the last buffer, provided the marker arrives whole in the last buffer |
| Stream.TransferAbandoned | utils.py:44-88 | for content without `END_OF_FILE`, when `send_file` gives up on a chunk, the receiver of what got through, however it is cut into buffers, writes a prefix of the file and is still waiting |
| Stream.ReceiveSkipsError | utils.py:85-88 | a `socket.error` anywhere in the script changes neither what `recv_file` writes nor whether it returns |
| Stream.ReceiveBorderCase | utils.py:80-81 | content ending with "END_OF_FIL" that shares a buffer with the marker is received as "ND_OF_FILE", because the first match steals the marker's 'E' |
| Listing.SliceEnd | utils.py:107 | a slice is 500 characters, or fewer only at the end of the text |
| Listing.Slice | utils.py:107 | the encoded slice has at least as many bytes as characters, and at least one |
| Listing.ListingSlicesAt | utils.py:106-112 | the next slice starts as many characters on as the previous slice had bytes |
| Listing.SendListing | utils.py:94-122 | `send_listing` sends the framed listing `BEGIN + "\n" + join + "\n" + END` as `ListingSend` describes |
| Listing.SendText | utils.py:105-120 | the nested loops, where `total_sent` advances by encoded length, send exactly the slices under the retry policy |
| Listing.ListingConcatAt | utils.py:106-112 | the bytes from an offset on are the slice there, then the rest |
| Listing.ListingSlicesAscii | utils.py:106-112 | for ASCII text, the slices are contiguous, concatenate to the encoded text, and are at most 500 bytes each |
| Listing.AsciiSlice | utils.py:107 | a slice of ASCII text is ASCII |
| Listing.SliceSplit | utils.py:107 | encoding a text splits at any point |
| Listing.ListingSlicesBound | utils.py:106-112 | the listing never sends more bytes than the encoded text |
| Listing.ListingSkipsAfterWideSlice | utils.py:107-112 | a non-ASCII character in the first slice of a longer text makes characters go unsent, so fewer bytes than the encoded text arrive |
| Listing.ListingSendReliable | utils.py:104-120 | with no failures, an ASCII listing goes through complete, as the encoded listing text in pieces of at most 500 bytes |
| Listing.BeforeEnd | utils.py:137 | what precedes the first end marker in a chunk, which holds no end marker |
| Listing.ListingFromStep | utils.py:135-139 | a chunk without the end marker is added to the data |
| Listing.RecvListing | utils.py:124-146 | the loop computes exactly `ListingReceive` |
| Listing.ListingFromPlain | utils.py:139 | chunks without the end marker are gathered in order |
| Listing.ListingReceiveEnds | utils.py:134-146 | the first chunk with the end marker ends the call and shows what came before it, with begin markers removed and stripped; an earlier failure ends it with nothing shown; without either it keeps waiting |
| Listing.TextEvents | utils.py:135 | one decoded chunk per buffer |
| Listing.TextEventsTexts | utils.py:135-139 | the chunks' text is the buffers concatenated |
| Listing.MarkerFacts | utils.py:12-13 | neither marker holds a line break, and the begin marker does not hold the end marker |
| Listing.ListingBodyClean | utils.py:104 | when no name holds a marker, the listing body holds neither marker |
| Listing.ListingTextSplit | utils.py:104 | the listing text is its head, ending with a line break, followed by the end marker |
| Listing.ListingHeadShown | utils.py:142 | when the listing body holds no begin marker, the displayed head is the joined names, stripped |
| Listing.ShownBetweenBreaks | utils.py:142 | removing a leading marker and stripping a text between two line breaks gives the stripped text |
| Listing.ListingHeadNoEnd | utils.py:136 | the begin marker followed by a clean body holds no end marker |
| Listing.LastBufferEnd | utils.py:136-137 | in the last buffer the end marker is found right after what is left of the head |
| Listing.ReceiveHead | utils.py:134-142 | buffers carrying a head then the end marker, with the marker whole in the last one, show the head |
| Listing.ListingRoundTrip | utils.py:104-142 | when no name holds a marker, however the listing is cut into buffers, the receiver shows `"\n".join(files)` stripped, provided the marker arrives whole in the last buffer |
| Server.JoinPathInside | server.py:58 | a relative name lands under `uploaded_files/` as itself, and distinct names give distinct paths |
| Server.JoinPathAbsolute | server.py:58 | an absolute name escapes the upload directory |
| Server.ParseRequest | server.py:48-55 | no request exactly for all-white-space text, and otherwise a one-word command with an optional non-empty file name |
| Server.ParseRequestPadded | server.py:48 | white space around a request does not change its parse |
| Server.ParseRequestOf | server.py:53-55 | command, white space and a name with non-space ends parse back into the command and the name |
| Server.ParseRequestWord | server.py:53-55 | a lone command has no file name |
| Server.HandleClient | server.py:40-79 | empty request: nothing sent. `put` of an existing path: only the exists error. `put` of a new path: "OK", then the received file is stored, then "saved" once `recv_file` returns. `get`: "OK" and the file stream, or only the not-found error. `list`: the listing with no handshake. Anything else: nothing |
| Client.Basename | client.py:42 | `os.path.basename`: a suffix of the path without a '/', preceded by a '/' when shorter than the path |
| Client.BasenamePlain | client.py:42 | a path without a '/' is its own base name |
| Client.BasenameInDirectory | client.py:42 | the base name of `dir/name` is `name` |
| Client.RunClient | client.py:37-61 | `put` of a missing local file: no request. Request lines are `put <basename>`, `get <basename>` and `list`. A reply starting with "Error" suppresses the transfer, and any other reply proceeds. `get` stores the download under the base name. `list` skips the handshake. Anything else: nothing |
| Client.CommandWords | client.py:43-60 | the command words are single words |
| Client.RequestRoundTrip | client.py:43 | for a command word and a non-empty name that neither starts nor ends with white space, the server parses the client's request line back into the same command and name |
| Client.EmptyNameUnanswered | client.py:42-43 | a request line with an empty base name parses without a file name, so the server sends nothing |
| Client.PutRoundTrip | client.py:42-48 | an upload, for a non-empty name that neither starts nor ends with white space: the server asks for the same name, and what a reliable `send_file` of `MarkerFree` content sent is stored unchanged, provided the marker arrives whole in the last buffer |
| Client.GetRoundTrip | client.py:51-57 | a download, for a non-empty name that neither starts nor ends with white space: the server looks up the same name, and the buffers that follow the client's reply read, when they carry all of what a reliable `send_file` of `MarkerFree` content sent with the marker whole in the last one, are stored unchanged |
| Client.SilentCloseProceeds | client.py:51-57 | a request line with an empty base name gets no answer from the server, and the empty reply read after the server closes does not stop the client |
| Client.HandshakeAgrees | client.py:45 | "OK" lets the client go on, and both of the server's errors stop it |
| Client.UploadPathKeepsName | client.py:42 | the server stores an upload under a path whose base name is the client's name |

## Left out

- `time.sleep(RETRY_DELAY)` and every diagnostic `print` are not modelled. The listing that `recv_listing` prints is modelled as `Shown`. Retries are counted attempts.
- `sendall` is modelled as all or nothing per attempt. Partial sends inside `sendall` and TCP details are not modelled.
- The request `sendall`, the handshake replies and the client's reply `recv(1024)` are assumed to succeed. The reply text is an input to `RunClient`.
- The 1024-byte limit on the server's request read is not modelled.
- Client.GetRoundTrip and Client.RunClient: the client's reply `recv(1024)` is assumed to return the server's "OK" alone. The server starts the file stream right after "OK" on the same connection, so that read can also take the first bytes of the file, which then never reach `recv_file`. For an empty file it can take all of "OKEND_OF_FILE", and the client then waits forever. The `decode('utf-8')` of such a read can also raise `UnicodeDecodeError`, which `except socket.error` does not catch. None of this is modelled.
- A request that is not valid UTF-8 makes the server's `decode('utf-8')` raise, and the client gets no reply. Dafny strings hold only decoded text, so this case cannot be stated.
- A directory entry with a surrogate escape makes `encode('utf-8')` in `send_listing` raise, and `except Exception` then ends the listing without its end marker. Dafny strings cannot hold lone surrogates, so this case cannot be stated.
- `Basename` and `JoinPath` follow POSIX path rules only. Windows separators and drive letters are not modelled.
- The receive buffer sizes (`recv(MAX_CHUNK_SIZE)`, `recv(CHUNK_SIZE)`) are not imposed on the scripts. `ChunksFitReceiveBuffer` shows that the sender's chunks fit.
- Failures of `open`, `os.path.getsize` and `os.listdir`, and the generic `except Exception` paths they would take, are not modelled. Directories versus files are not distinguished either.
- Stream.RecvFile: a failing `f.write` is not modelled. Both writes sit inside the inner `try`, whose handler is `except socket.error`, which is `OSError` in Python 3. So a write error is counted as a failed `recv`: that buffer is lost and reading goes on. If the lost buffer held the marker, `recv_file` never returns. File-system errors are therefore retried here, not reported.
- The UTF-8 decoder of `recv_listing` is not modelled. A `recv` call yields decoded text, or a `Fault` for a socket error or an undecodable buffer. So the listing round trip is stated on text.
- `calculate_chunk_size` is modelled on natural numbers. A negative size cannot come from `os.path.getsize`.
- The `ssl` imports are unused.
- `start_server`, socket creation and connect, and argparse are network and command-line glue.
- The accept loop and `os.makedirs` of the upload directory are not modelled.
- The server's closing of the socket is not modelled as an event. After a request the server leaves unanswered, the close makes the client's reply read return the empty string. That does not start with "Error", so the client goes on to the transfer as if the server had said "OK". `RunClient` with `response == ""` models this case, and `Client.SilentCloseProceeds` states it for an empty base name.
- The client's success message and the server's diagnostics are prints.
