/** The client side of one connection (client.py `main`): it builds the
    request line for `put`, `get` or `list`, reads the server's one-line
    answer, and goes on to the transfer unless that answer starts with
    "Error".

    The local files are a map from existing paths to their contents; the
    server's answer, the buffers of a download or listing and the failing
    send attempts of an upload are given as inputs. */
module Client {
  import opened Seqs
  import opened Text
  import opened Retry
  import opened Stream
  import opened Listing
  import opened Server

  /** Python's `os.path.basename(path)`: what follows the last '/'. */
  function Basename(path: string): (r: string)
    ensures '/' !in r
    ensures |r| <= |path| && r == path[|path| - |r|..]
    ensures |r| < |path| ==> path[|path| - |r| - 1] == '/'
  {
    if path == [] || path[|path| - 1] == '/' then []
    else
      var init := path[..|path| - 1];
      var base := Basename(init);
      SuffixExtend(path, base);
      base + [path[|path| - 1]]
  }

  /** A suffix of all but the last element, extended by the last element,
      is a suffix of the whole, preceded by what preceded it. */
  lemma SuffixExtend<T>(path: seq<T>, base: seq<T>)
    requires path != [] && |base| < |path|
    requires base == path[..|path| - 1][|path| - 1 - |base|..]
    ensures base + [path[|path| - 1]] == path[|path| - |base| - 1..]
    ensures |base| + 1 < |path| ==> path[|path| - |base| - 2] == path[..|path| - 1][|path| - 1 - |base| - 1]
  {
  }

  /** A path without a '/' is its own base name. */
  lemma {:induction false} BasenamePlain(path: string)
    requires '/' !in path
    ensures Basename(path) == path
  {
    if path != [] {
      BasenamePlain(path[..|path| - 1]);
      assert path[..|path| - 1] + [path[|path| - 1]] == path;
    }
  }

  /** The base name of a file in a directory is the file's own name. */
  lemma {:induction false} BasenameInDirectory(dir: string, name: string)
    requires '/' !in name
    ensures Basename(dir + "/" + name) == name
  {
    var path := dir + "/" + name;
    if name == [] {
      assert path[|path| - 1] == '/';
    } else {
      var init := name[..|name| - 1];
      assert path[..|path| - 1] == dir + "/" + init;
      assert path[|path| - 1] == name[|name| - 1];
      assert name[|name| - 1] in name;
      BasenameInDirectory(dir, init);
      assert init + [name[|name| - 1]] == name;
    }
  }

  /** The request line the client sends: f"{command} {filename}". */
  function RequestLine(command: string, name: string): string
  {
    command + " " + name
  }

  /** The handshake test: an answer starting with "Error" stops the client. */
  predicate IsError(response: string)
  {
    StartsWith(response, "Error")
  }

  /** What one run of the client did: the request line it sent, if any,
      the upload, download or listing it went on to, and the local files
      afterwards. */
  datatype ClientRun = ClientRun(request: Option<string>, upload: Option<Transmission>,
                                 download: Option<Reception>, listing: Option<ListingOutcome>,
                                 local: map<string, seq<byte>>)

  /** The decision logic of `main` after the connection is made.
      `filepath` is the optional command-line path, `local` the client's
      files, `response` the server's answer to a `put` or `get`, `inbound`
      the buffers of a download, `listed` those of a listing and `failing`
      the failing send attempts of an upload. */
  method RunClient(command: string, filepath: Option<string>, local: map<string, seq<byte>>,
                   response: string, inbound: seq<RecvEvent>, listed: seq<ListingEvent>,
                   failing: set<nat>) returns (run: ClientRun)
    ensures var given := filepath.Some? && filepath.value != [];
      && (command == "put" && given && filepath.value !in local ==>
            run == ClientRun(None, None, None, None, local))
      && (command == "put" && given && filepath.value in local ==>
            run == ClientRun(Some(RequestLine("put", Basename(filepath.value))),
                             if IsError(response) then None else Some(FileSend(local[filepath.value], failing)),
                             None, None, local))
      && (command == "get" && given ==>
            var r := Receive(inbound);
            run == ClientRun(Some(RequestLine("get", Basename(filepath.value))), None,
                             if IsError(response) then None else Some(r), None,
                             if IsError(response) then local else local[Basename(filepath.value) := r.file]))
      && (command == "list" ==> run == ClientRun(Some("list"), None, None, Some(ListingReceive(listed)), local))
      && ((command == "put" || command == "get") && !given ==> run == ClientRun(None, None, None, None, local))
      && (command != "put" && command != "get" && command != "list" ==> run == ClientRun(None, None, None, None, local))
  {
    run := ClientRun(None, None, None, None, local);
    if command == "put" && filepath.Some? && filepath.value != [] {
      var path := filepath.value;
      if path !in local {
        return;
      }
      var filename := Basename(path);
      run := run.(request := Some(RequestLine("put", filename)));
      if !IsError(response) {
        var t := SendFile(local[path], failing);
        run := run.(upload := Some(t));
      }
    } else if command == "get" && filepath.Some? && filepath.value != [] {
      var filename := Basename(filepath.value);
      run := run.(request := Some(RequestLine("get", filename)));
      if !IsError(response) {
        var r := RecvFile(inbound);
        run := run.(download := Some(r), local := local[filename := r.file]);
      }
    } else if command == "list" {
      run := run.(request := Some("list"));
      var shown := RecvListing(listed);
      run := run.(listing := Some(shown));
    }
  }

  /** The client's command words are single words. */
  lemma CommandWords()
    ensures IsWord("put") && IsWord("get") && IsWord("list")
  {
    assert !IsSpace('p') && !IsSpace('u') && !IsSpace('t');
    assert !IsSpace('g') && !IsSpace('e');
    assert !IsSpace('l') && !IsSpace('i') && !IsSpace('s');
  }

  /** The server reads back what the client asked for: the command and the
      file name, when that name neither starts nor ends with white space. */
  lemma RequestRoundTrip(command: string, name: string)
    requires IsWord(command)
    requires name != [] && !IsSpace(name[0]) && !IsSpace(name[|name| - 1])
    ensures ParseRequest(RequestLine(command, name)) == Some(Request(command, Some(name)))
  {
    assert IsSpace(' ');
    ParseRequestOf(command, " ", name);
  }

  /** An empty base name (a path ending in '/') makes the request line the
      bare command followed by a space, which the server parses without a
      file name and so leaves unanswered. */
  lemma EmptyNameUnanswered(command: string)
    requires IsWord(command)
    ensures ParseRequest(RequestLine(command, [])) == Some(Request(command, None))
    ensures !Asks(ParseRequest(RequestLine(command, [])), command)
  {
    assert IsSpace(' ');
    assert RequestLine(command, []) == [] + command + " ";
    ParseRequestPadded([], command, " ");
    ParseRequestWord(command);
  }

  /** A request line with an empty base name is left unanswered; the
      server then closes the connection, the client's reply read returns
      nothing, and the empty reply does not stop the client from going on
      to the transfer. */
  lemma SilentCloseProceeds(command: string)
    requires IsWord(command)
    ensures !Asks(ParseRequest(RequestLine(command, [])), command)
    ensures !IsError([])
  {
    EmptyNameUnanswered(command);
  }

  /** An upload: the server reads the client's `put` request
      back, asks for the path of the same name in the upload directory, and
      the bytes a reliable `send_file` puts on the connection, however they
      are split into buffers, are stored there unchanged (when the content
      does not hold the end marker and the last buffer can hold it whole). */
  lemma PutRoundTrip(name: string, content: seq<byte>, buffers: seq<seq<byte>>)
    requires name != [] && !IsSpace(name[0]) && !IsSpace(name[|name| - 1])
    requires MarkerFree(content)
    requires buffers != [] && Concat(buffers) == Concat(Delivered(FileSend(content, {}).trace))
    requires |buffers[|buffers| - 1]| >= |END_OF_FILE|
    ensures var req := ParseRequest(RequestLine("put", name));
      && Asks(req, "put")
      && PathOf(req) == JoinPath(UPLOAD_DIRECTORY, name)
      && Receive(Buffers(buffers)).file == content
  {
    CommandWords();
    RequestRoundTrip("put", name);
    FileSendReliable(content);
    TransferRoundTrip(content, {}, buffers);
  }

  /** A download: the server reads the client's `get` request back and
      looks up the path of the same name; when the buffers the client reads
      after its reply carry all of what a reliable `send_file` of that file
      puts on the connection, the client stores exactly the file. */
  lemma GetRoundTrip(name: string, content: seq<byte>, buffers: seq<seq<byte>>)
    requires name != [] && !IsSpace(name[0]) && !IsSpace(name[|name| - 1])
    requires MarkerFree(content)
    requires buffers != [] && Concat(buffers) == Concat(Delivered(FileSend(content, {}).trace))
    requires |buffers[|buffers| - 1]| >= |END_OF_FILE|
    ensures var req := ParseRequest(RequestLine("get", name));
      && Asks(req, "get")
      && PathOf(req) == JoinPath(UPLOAD_DIRECTORY, name)
      && Receive(Buffers(buffers)).file == content
  {
    CommandWords();
    RequestRoundTrip("get", name);
    FileSendReliable(content);
    TransferRoundTrip(content, {}, buffers);
  }

  /** The server's answers and the client's test agree: "OK" lets the
      client go on, and both refusals stop it. */
  lemma HandshakeAgrees()
    ensures !IsError(ACCEPTED)
    ensures IsError(FILE_EXISTS) && IsError(FILE_NOT_FOUND)
  {
    assert FILE_EXISTS[..5] == "Error";
    assert FILE_NOT_FOUND[..5] == "Error";
  }

  /** The server stores an upload under the client's base name: a file
      name without a '/' is joined into the upload directory, and the base
      name of the stored path is that name again. */
  lemma UploadPathKeepsName(name: string)
    requires name != [] && '/' !in name
    ensures Basename(JoinPath(UPLOAD_DIRECTORY, name)) == name
  {
    assert !StartsWith(name, "/") by {
      assert name[0] in name;
    }
    assert JoinPath(UPLOAD_DIRECTORY, name) == UPLOAD_DIRECTORY + "/" + name;
    BasenameInDirectory(UPLOAD_DIRECTORY, name);
  }
}
