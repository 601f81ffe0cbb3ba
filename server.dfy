/** One client connection on the server (server.py `handle_client`): the
    request line is parsed into a command and a file name, and the server
    answers `put`, `get` and `list` by delegating to the transfer routines.

    The file system is a map from existing paths to their contents; the
    directory listing, the buffers the client sends and the failing send
    attempts are given as inputs. */
module Server {
  import opened Text
  import opened Retry
  import opened Stream
  import opened Listing

  datatype Option<T> = None | Some(value: T)

  const UPLOAD_DIRECTORY: string := "uploaded_files"

  const FILE_EXISTS: string := "Error: File already exists"
  const FILE_NOT_FOUND: string := "Error: File not found"
  const ACCEPTED: string := "OK"
  const SAVED: string := "File saved successfully on the server."

  /** Python's `os.path.join(dir, name)` on POSIX: an absolute name replaces
      the directory, otherwise a '/' separates the two unless the directory
      already ends with one. */
  function JoinPath(dir: string, name: string): string
  {
    if StartsWith(name, "/") then name
    else if dir == [] || dir[|dir| - 1] == '/' then dir + name
    else dir + "/" + name
  }

  /** A relative name lands in the upload directory, and different names
      land on different paths. */
  lemma JoinPathInside(name: string, other: string)
    requires !StartsWith(name, "/") && !StartsWith(other, "/")
    ensures StartsWith(JoinPath(UPLOAD_DIRECTORY, name), UPLOAD_DIRECTORY + "/")
    ensures JoinPath(UPLOAD_DIRECTORY, name)[|UPLOAD_DIRECTORY| + 1..] == name
    ensures JoinPath(UPLOAD_DIRECTORY, name) == JoinPath(UPLOAD_DIRECTORY, other) <==> name == other
  {
    var p := JoinPath(UPLOAD_DIRECTORY, name);
    var q := JoinPath(UPLOAD_DIRECTORY, other);
    assert p == UPLOAD_DIRECTORY + "/" + name;
    assert q == UPLOAD_DIRECTORY + "/" + other;
    assert p[|UPLOAD_DIRECTORY| + 1..] == name;
    assert q[|UPLOAD_DIRECTORY| + 1..] == other;
  }

  /** An absolute name escapes the upload directory: the path is the name
      itself. */
  lemma JoinPathAbsolute(name: string)
    requires StartsWith(name, "/")
    ensures JoinPath(UPLOAD_DIRECTORY, name) == name
    ensures !StartsWith(JoinPath(UPLOAD_DIRECTORY, name), UPLOAD_DIRECTORY)
  {
    assert UPLOAD_DIRECTORY[0] != '/';
  }

  /** A parsed request: the command word and, when text follows it, the
      file name. */
  datatype Request = Request(command: string, filename: Option<string>)

  /** The parse of `handle_client`: the request is stripped; an empty one
      is no request at all; otherwise its first word is the command and the
      rest, stripped, the file name. */
  function ParseRequest(raw: string): (r: Option<Request>)
    ensures r.None? <==> AllSpace(raw)
    ensures r.Some? ==> IsWord(r.value.command)
    ensures r.Some? && r.value.filename.Some? ==> r.value.filename.value != []
  {
    var request := Strip(raw);
    StripEmpty(raw);
    if request == [] then None
    else
      assert !AllSpace(request) by {
        assert !IsSpace(request[0]);
      }
      var parts := SplitOnce(request);
      Some(Request(parts[0], if |parts| > 1 then Some(Strip(parts[1])) else None))
  }

  /** White space around a request does not change its parse. */
  lemma ParseRequestPadded(pre: string, raw: string, post: string)
    requires AllSpace(pre) && AllSpace(post)
    ensures ParseRequest(pre + raw + post) == ParseRequest(raw)
  {
    StripPadded(pre, raw, post);
    StripEmpty(pre + raw + post);
    StripEmpty(raw);
  }

  /** A command word followed by white space and a file name that neither
      starts nor ends with white space parses back into the two; the name
      may hold white space inside. */
  lemma ParseRequestOf(command: string, gap: string, name: string)
    requires IsWord(command) && gap != [] && AllSpace(gap)
    requires name != [] && !IsSpace(name[0]) && !IsSpace(name[|name| - 1])
    ensures ParseRequest(command + gap + name) == Some(Request(command, Some(name)))
  {
    var line := command + gap + name;
    StripNoop(line);
    StripNoop(name);
    SplitOnceOf(command, gap, name);
  }

  /** A lone command word parses into a request without a file name. */
  lemma ParseRequestWord(command: string)
    requires IsWord(command)
    ensures ParseRequest(command) == Some(Request(command, None))
  {
    StripNoop(command);
    SplitOnceWord(command);
  }

  /** The request asks for `command` on a file: `command == "put" and
      filename` (or "get"), where an empty or missing name is false. */
  predicate Asks(req: Option<Request>, command: string)
  {
    req.Some? && req.value.command == command && req.value.filename.Some? && req.value.filename.value != []
  }

  /** The path a request for a file names in the upload directory. */
  function PathOf(req: Option<Request>): string
    requires req.Some? && req.value.filename.Some?
  {
    JoinPath(UPLOAD_DIRECTORY, req.value.filename.value)
  }

  /** What the server puts on the connection, in order. */
  datatype Output =
    | Message(text: string)        // one `sendall` of a reply line
    | FileStream(t: Transmission)  // `send_file`
    | ListingStream(t: Transmission) // `send_listing`

  /** How a connection ends: what was sent, what `recv_file` did if it ran,
      and the files afterwards. */
  datatype Session = Session(sent: seq<Output>, upload: Option<Reception>, disk: map<string, seq<byte>>)

  /** `handle_client` for the request text `raw` (the decoded first
      `recv`). `disk` maps the existing paths to their contents, `entries`
      is what `os.listdir` returns for the upload directory, `inbound` the
      `recv` results of an upload and `failing` the failing send attempts
      of a download or listing. The connection is closed on every path. */
  method HandleClient(raw: string, disk: map<string, seq<byte>>, entries: seq<string>,
                      inbound: seq<RecvEvent>, failing: set<nat>) returns (s: Session)
    ensures var req := ParseRequest(raw);
      && (req.None? ==> s == Session([], None, disk))
      && (Asks(req, "put") && PathOf(req) in disk ==> s == Session([Message(FILE_EXISTS)], None, disk))
      && (Asks(req, "put") && PathOf(req) !in disk ==>
            var r := Receive(inbound);
            && s.upload == Some(r)
            && s.disk == disk[PathOf(req) := r.file]
            && s.sent == [Message(ACCEPTED)] + (if r.finished then [Message(SAVED)] else []))
      && (Asks(req, "get") && PathOf(req) in disk ==>
            s == Session([Message(ACCEPTED), FileStream(FileSend(disk[PathOf(req)], failing))], None, disk))
      && (Asks(req, "get") && PathOf(req) !in disk ==> s == Session([Message(FILE_NOT_FOUND)], None, disk))
      && (req.Some? && req.value.command == "list" ==> s == Session([ListingStream(ListingSend(entries, failing))], None, disk))
      && (req.Some? && !Asks(req, "put") && !Asks(req, "get") && req.value.command != "list" ==>
            s == Session([], None, disk))
  {
    var req := ParseRequest(raw);
    if req.None? {
      return Session([], None, disk);
    }
    var command := req.value.command;
    var filename := req.value.filename;
    if command == "put" && filename.Some? && filename.value != [] {
      var path := JoinPath(UPLOAD_DIRECTORY, filename.value);
      if path in disk {
        s := Session([Message(FILE_EXISTS)], None, disk);
      } else {
        var r := RecvFile(inbound);
        var sent := [Message(ACCEPTED)];
        if r.finished {
          sent := sent + [Message(SAVED)];
        }
        s := Session(sent, Some(r), disk[path := r.file]);
      }
    } else if command == "get" && filename.Some? && filename.value != [] {
      var path := JoinPath(UPLOAD_DIRECTORY, filename.value);
      if path in disk {
        var t := SendFile(disk[path], failing);
        s := Session([Message(ACCEPTED), FileStream(t)], None, disk);
      } else {
        s := Session([Message(FILE_NOT_FOUND)], None, disk);
      }
    } else if command == "list" {
      var t := SendListing(entries, failing);
      s := Session([ListingStream(t)], None, disk);
    } else {
      s := Session([], None, disk);
    }
  }
}
