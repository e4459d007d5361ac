/** File contents on the wire: base64 bodies out, sanitized text or a binary flag back. */
module FileCodec {
  import opened Bytes
  import opened StripControl
  import opened Texts
  import Utf8
  import Base64

  /** One contents entry as the server sends it. */
  datatype ContentResponse = ContentResponse(
    path: string, sha: string, size: int, content: seq<Byte>, encoding: string)

  datatype File = File(content: seq<Byte>, binary: bool, sha: string, encoding: string, size: int)

  datatype FileInput = FileInput(path: Text, branch: Text, message: string, sha: Text, content: seq<Byte>)

  datatype FileWriteRequest = FileWriteRequest(message: string, branch: Text, sha: Text, content: seq<Byte>)

  datatype FileResult = FileResult(path: string, sha: string, content: seq<Byte>, commitSha: string)

  function DecodeFile(raw: ContentResponse): File {
    if raw.encoding == "base64" then
      var data := Base64.Decode(raw.content);
      if data.None? || !Utf8.Valid(data.value) then File([], true, raw.sha, raw.encoding, raw.size)
      else File(Strip(data.value), false, raw.sha, raw.encoding, raw.size)
    else File(Strip(raw.content), false, raw.sha, raw.encoding, raw.size)
  }

  function FileResultFromWire(entry: ContentResponse, commitSha: string): FileResult {
    var content :=
      if entry.encoding == "base64" then
        var data := Base64.Decode(entry.content);
        if data.Some? then data.value else []
      else entry.content;
    FileResult(entry.path, entry.sha, content, commitSha)
  }

  /** The body of a create carries no blob SHA, the body of an update the caller's. */
  function CreateBody(input: FileInput): FileWriteRequest {
    FileWriteRequest(input.message, input.branch, "", Base64.Encode(input.content))
  }

  function UpdateBody(input: FileInput): FileWriteRequest {
    FileWriteRequest(input.message, input.branch, input.sha, Base64.Encode(input.content))
  }

  /** The server answers with the base64 text it was sent, possibly broken into lines. */
  predicate Echoes(entry: ContentResponse, body: FileWriteRequest) {
    entry.encoding == "base64" && Base64.SkipNewlines(entry.content) == body.content
  }

  // ---------- write, then read ----------

  lemma WrittenContentComesBack(input: FileInput, entry: ContentResponse, commitSha: string)
    requires Echoes(entry, CreateBody(input)) || Echoes(entry, UpdateBody(input))
    ensures FileResultFromWire(entry, commitSha) == FileResult(entry.path, entry.sha, input.content, commitSha)
  {
    Base64.RoundTrip(input.content, entry.content);
  }

  /** Reading what was written: text that is not UTF-8 is flagged and withheld, other text comes
      back without its terminal controls, and the blob SHA comes back in either case. */
  lemma WriteThenRead(input: FileInput, entry: ContentResponse)
    requires Echoes(entry, CreateBody(input)) || Echoes(entry, UpdateBody(input))
    ensures var f := DecodeFile(entry);
      && (f.binary <==> !Utf8.Valid(input.content))
      && f.content == (if f.binary then [] else Strip(input.content))
      && f.sha == entry.sha && f.encoding == entry.encoding && f.size == entry.size
  {
    Base64.RoundTrip(input.content, entry.content);
  }

  /** What a reader is shown of a file holding c. */
  function Shown(c: seq<Byte>): File {
    DecodeFile(ContentResponse("", "", |c|, Base64.Encode(c), "base64"))
  }

  lemma ShownIs(c: seq<Byte>)
    ensures Shown(c).binary <==> !Utf8.Valid(c)
    ensures Shown(c).content == if Utf8.Valid(c) then Strip(c) else []
  {
    Base64.PlainRoundTrip(c);
  }

  /** Writing back what was shown is shown again as the same file exactly when the content was UTF-8 and
      no escape in it drops a non-ASCII byte. Else the flag flips: a binary file has become an empty text,
      a text has become a binary file without content. */
  lemma WritingBackStabilizes(c: seq<Byte>)
    ensures var once := Shown(c); var again := Shown(once.content);
      && (again.content == once.content && again.binary == once.binary <==> Utf8.Valid(c) && Utf8.SafeEscapes(c))
      && (!(Utf8.Valid(c) && Utf8.SafeEscapes(c)) ==> again.content == [] && again.binary != once.binary)
  {
    ShownIs(c);
    if Utf8.Valid(c) {
      ShownIs(Strip(c));
      StripIsIdempotent(c);
      Utf8.StripKeepsUtf8Exactly(c);
    } else {
      ShownIs([]);
    }
  }

  /** The text of an answer before stripping: the decoded bytes, or the JSON string as it is. */
  function Payload(raw: ContentResponse): Option<seq<Byte>> {
    if raw.encoding == "base64" then Base64.Decode(raw.content) else Some(raw.content)
  }

  /** The file contract, that corrupted text is never returned, holds of an answer exactly when it is
      flagged binary or no escape in it drops a non-ASCII byte. Plain content is a JSON string, which is
      UTF-8 once it is decoded. */
  lemma NoCorruptTextExactly(raw: ContentResponse)
    ensures var f := DecodeFile(raw); var data := Payload(raw);
      && (f.binary ==> f.content == [])
      && (f.binary <==> raw.encoding == "base64" && (data.None? || !Utf8.Valid(data.value)))
      && (raw.encoding == "base64" || Utf8.Valid(raw.content) ==>
            (Utf8.Valid(f.content) <==> f.binary || Utf8.SafeEscapes(data.value)))
  {
    var data := Payload(raw);
    if data.Some? && Utf8.Valid(data.value) {
      Utf8.StripKeepsUtf8Exactly(data.value);
    }
  }

  /** What is known of a file does not depend on its content: SHA, encoding and size are the server's in
      every case; a plain answer is never binary and shows its stripped text, malformed base64 is binary. */
  lemma AnswerIsShown(raw: ContentResponse)
    ensures var f := DecodeFile(raw);
      && f.sha == raw.sha && f.encoding == raw.encoding && f.size == raw.size
      && (raw.encoding != "base64" ==> !f.binary && f.content == Strip(raw.content))
      && (raw.encoding == "base64" && Base64.Decode(raw.content).None? ==> f.binary && f.content == [])
      && (forall data :: raw.encoding == "base64" && Base64.Decode(raw.content) == Some(data) && Utf8.Valid(data) ==>
            !f.binary && f.content == Strip(data))
  {
  }

  /** Whatever the server sends, base64 or plain, no terminal control reaches the reader. */
  lemma NoControlReachesTheReader(raw: ContentResponse)
    ensures forall k :: 0 <= k < |DecodeFile(raw).content| ==>
      var c := DecodeFile(raw).content[k]; c != 0x1b && c != 0x7f && (c < 0x20 ==> c == 0x09 || c == 0x0a || c == 0x0d)
  {
    OutIsCleanSubsequence(Ground, raw.content);
    var data := Base64.Decode(raw.content);
    if data.Some? {
      OutIsCleanSubsequence(Ground, data.value);
    }
  }

  // ---------- several files in one commit ----------

  /** An entry of the tool's input and of the use case's. */
  datatype ToolEntry = ToolEntry(path: string, content: seq<Byte>, operation: string, sha: string)
  datatype ChangeFileEntry = ChangeFileEntry(path: string, content: seq<Byte>, operation: string, sha: string)
  datatype WireEntry = WireEntry(path: string, operation: string, content: seq<Byte>, sha: string)

  datatype WireFile = WireFile(path: string, sha: string, status: string)
  datatype ChangeFileResult = ChangeFileResult(path: string, sha: string, status: string)

  /** The tool handler's loop. */
  method EntriesFromTool(input: seq<ToolEntry>) returns (files: seq<ChangeFileEntry>)
    ensures |files| == |input|
    ensures forall i :: 0 <= i < |input| ==>
      files[i] == ChangeFileEntry(input[i].path, input[i].content, input[i].operation, input[i].sha)
  {
    files := [];
    for k := 0 to |input|
      invariant |files| == k
      invariant forall i :: 0 <= i < k ==>
        files[i] == ChangeFileEntry(input[i].path, input[i].content, input[i].operation, input[i].sha)
    {
      var f := input[k];
      files := files + [ChangeFileEntry(f.path, f.content, f.operation, f.sha)];
    }
  }

  /** The client's loop over the request entries. */
  method WireEntries(files: seq<ChangeFileEntry>) returns (wire: seq<WireEntry>)
    ensures |wire| == |files|
    ensures forall i :: 0 <= i < |files| ==>
      && wire[i].path == files[i].path
      && wire[i].operation == files[i].operation
      && wire[i].sha == files[i].sha
      && Base64.Decode(wire[i].content) == Some(files[i].content)
  {
    wire := [];
    for k := 0 to |files|
      invariant |wire| == k
      invariant forall i :: 0 <= i < k ==>
        && wire[i].path == files[i].path
        && wire[i].operation == files[i].operation
        && wire[i].sha == files[i].sha
        && Base64.Decode(wire[i].content) == Some(files[i].content)
    {
      var f := files[k];
      Base64.PlainRoundTrip(f.content);
      wire := wire + [WireEntry(f.path, f.operation, Base64.Encode(f.content), f.sha)];
    }
  }

  /** The client's loop over the response entries. */
  method ResultsFromWire(wire: seq<WireFile>) returns (files: seq<ChangeFileResult>)
    ensures |files| == |wire|
    ensures forall i :: 0 <= i < |wire| ==>
      files[i] == ChangeFileResult(wire[i].path, wire[i].sha, wire[i].status)
  {
    files := [];
    for k := 0 to |wire|
      invariant |files| == k
      invariant forall i :: 0 <= i < k ==>
        files[i] == ChangeFileResult(wire[i].path, wire[i].sha, wire[i].status)
    {
      files := files + [ChangeFileResult(wire[k].path, wire[k].sha, wire[k].status)];
    }
  }

  /** From the tool call to the wire: entry for entry, in order, and every content readable back. */
  method WriteMany(input: seq<ToolEntry>) returns (wire: seq<WireEntry>)
    ensures |wire| == |input|
    ensures forall i :: 0 <= i < |input| ==>
      && wire[i].path == input[i].path
      && wire[i].operation == input[i].operation
      && wire[i].sha == input[i].sha
      && Base64.Decode(wire[i].content) == Some(input[i].content)
  {
    var files := EntriesFromTool(input);
    wire := WireEntries(files);
  }
}
