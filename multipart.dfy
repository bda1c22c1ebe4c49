/** The multipart encoder: `buildMessage` frames the records as a
    `multipart/form-data` body (section 5.1.1 of RFC 2046, with the part
    headers of section 4.2 of RFC 7578), and a reader for such bodies that
    shows what the framing makes recoverable. */
module Multipart {
  import opened Wrappers
  import opened Text
  import opened FormFields

  const CRLF: string := "\r\n"

  /** `'filename="' + element.fileName`: JavaScript prints a `null` name as "null". */
  function FileNameText(fileName: Option<string>): string
  {
    match fileName
    case Some(n) => n
    case None => "null"
  }

  /** The part `buildMessage` builds for one record. */
  function Part(f: Field): string
  {
    if f.isFile then
      "" + "Content-Disposition: form-data; "
         + ("name=\"" + f.name + "\"; ")
         + ("filename=\"" + FileNameText(f.fileName) + "\"" + CRLF)
         + ("Content-Type: application/octet-stream" + CRLF + CRLF)
         + (f.value + CRLF)
    else
      "" + "Content-Disposition: form-data; "
         + ("name=\"" + f.name + "\"" + CRLF + CRLF)
         + (f.value + CRLF)
  }

  function Parts(fs: seq<Field>): seq<string>
  {
    seq(|fs|, k requires 0 <= k < |fs| => Part(fs[k]))
  }

  lemma PartsSnoc(fs: seq<Field>, f: Field, part: string)
    requires part == Part(f)
    ensures Parts(fs + [f]) == Parts(fs) + [part]
  {
  }

  /** The body `buildMessage(fs, boundary)` returns: the first delimiter, the
      parts joined by the delimiter, the close delimiter. */
  function Message(fs: seq<Field>, boundary: string): string
  {
    "--" + boundary + CRLF
    + Join(Parts(fs), "--" + boundary + CRLF)
    + ("--" + boundary + "--" + CRLF)
  }

  /** `buildMessage`: build each part with `+=`, push it, then frame the parts. */
  method BuildMessage(elements: seq<Field>, boundary: string) returns (request: string)
    ensures request == Message(elements, boundary)
  {
    var parts: seq<string> := [];
    for i := 0 to |elements|
      invariant parts == Parts(elements[..i])
    {
      var element := elements[i];
      var part := "";
      if element.isFile {
        part := part + "Content-Disposition: form-data; ";
        part := part + ("name=\"" + element.name + "\"; ");
        part := part + ("filename=\"" + FileNameText(element.fileName) + "\"" + CRLF);
        part := part + ("Content-Type: application/octet-stream" + CRLF + CRLF);
        part := part + (element.value + CRLF);
        assert part == Part(element);
      } else {
        part := part + "Content-Disposition: form-data; ";
        part := part + ("name=\"" + element.name + "\"" + CRLF + CRLF);
        part := part + (element.value + CRLF);
        assert part == Part(element);
      }
      PartsSnoc(elements[..i], element, part);
      assert elements[..i + 1] == elements[..i] + [element];
      parts := parts + [part];
    }
    assert elements[..|elements|] == elements;
    request := "--" + boundary + CRLF;
    request := request + Join(parts, "--" + boundary + CRLF);
    request := request + ("--" + boundary + "--" + CRLF);
  }

  // ------------------------------------------------------ exact outputs

  /** No records: only the first and the close delimiter. */
  lemma EmptyMessage(boundary: string)
    ensures Message([], boundary) == "--" + boundary + "\r\n--" + boundary + "--\r\n"
  {
  }

  /** The single text record `user=alice` under boundary "B": first delimiter,
      the part, close delimiter. */
  lemma UserAliceMessage()
    ensures Message([Field(false, "user", "alice", None)], "B")
         == "--B\r\n"
            + "Content-Disposition: form-data; name=\"user\"\r\n\r\nalice\r\n"
            + "--B--\r\n"
  {
    var f := Field(false, "user", "alice", None);
    var part := "Content-Disposition: form-data; name=\"user\"\r\n\r\nalice\r\n";
    assert Part(f) == part;
    assert Parts([f]) == [part];
    assert "--" + "B" + CRLF == "--B\r\n";
    assert "--" + "B" + "--" + CRLF == "--B--\r\n";
  }

  /** A single file record: the part carries the file name and the generic
      binary content type before the contents. */
  lemma FilePartMessage()
    ensures Message([Field(true, "f", "DATA", Some("a.txt"))], "B")
         == "--B\r\n"
            + "Content-Disposition: form-data; "
            + "name=\"f\"; "
            + "filename=\"a.txt\"\r\n"
            + "Content-Type: application/octet-stream\r\n\r\n"
            + "DATA\r\n"
            + "--B--\r\n"
  {
    var f := Field(true, "f", "DATA", Some("a.txt"));
    var name := "name=\"f\"; ";
    var fileName := "filename=\"a.txt\"\r\n";
    var contentType := "Content-Type: application/octet-stream\r\n\r\n";
    var data := "DATA\r\n";
    assert "name=\"" + f.name + "\"; " == name;
    assert "filename=\"" + FileNameText(f.fileName) + "\"" + CRLF == fileName;
    assert "Content-Type: application/octet-stream" + CRLF + CRLF == contentType;
    assert f.value + CRLF == data;
    var part := "" + "Content-Disposition: form-data; " + name + fileName + contentType + data;
    assert Part(f) == part;
    assert Parts([f]) == [part];
    assert "--" + "B" + CRLF == "--B\r\n";
    assert "--" + "B" + "--" + CRLF == "--B--\r\n";
    Regroup5("--B\r\n", "Content-Disposition: form-data; ", name, fileName, contentType, data, "--B--\r\n");
  }

  lemma Regroup5(h: string, a: string, b: string, c: string, d: string, e: string, z: string)
    ensures h + ("" + a + b + c + d + e) + z == h + a + b + c + d + e + z
  {
  }

  // ------------------------------------------------------ reading a body back

  const Disposition: string := "Content-Disposition: form-data; " + "name=\""
  const NonFileTail: string := "\"" + CRLF + CRLF
  const FileNameMid: string := "\"; " + "filename=\""
  const FileTail: string := "\"" + CRLF + ("Content-Type: application/octet-stream" + CRLF + CRLF)

  /** A part laid out as header text, name, header text, file name, header
      text, content and the CRLF that ends it. */
  lemma PartShape(f: Field)
    ensures !f.isFile ==> Part(f) == Disposition + (f.name + (NonFileTail + (f.value + CRLF)))
    ensures f.isFile ==>
      Part(f) == Disposition + (f.name + (FileNameMid + (FileNameText(f.fileName)
                   + (FileTail + (f.value + CRLF)))))
  {
    if f.isFile {
      Regroup6("Content-Disposition: form-data; ", "name=\"", f.name, "\"; ", "filename=\"",
        FileNameText(f.fileName), "\"" + CRLF, "Content-Type: application/octet-stream" + CRLF + CRLF,
        f.value, CRLF);
    } else {
      Regroup3("Content-Disposition: form-data; ", "name=\"", f.name, "\"", CRLF, f.value);
    }
  }

  lemma Regroup3(a: string, b: string, name: string, c: string, crlf: string, v: string)
    ensures "" + a + (b + name + c + crlf + crlf) + (v + crlf)
         == (a + b) + (name + ((c + crlf + crlf) + (v + crlf)))
  {
  }

  lemma Regroup6(a: string, b: string, name: string, c: string, e: string, fileName: string,
                 g: string, h: string, v: string, crlf: string)
    ensures "" + a + (b + name + c) + (e + fileName + g) + h + (v + crlf)
         == (a + b) + (name + ((c + e) + (fileName + ((g + h) + (v + crlf)))))
  {
  }

  /** The content of a part: everything before its final CRLF. */
  function Content(s: string): Option<string>
  {
    if |s| >= 2 && s[|s| - 2..] == CRLF then Some(s[..|s| - 2]) else None
  }

  lemma ContentOf(v: string)
    ensures Content(v + CRLF) == Some(v)
  {
    assert (v + CRLF)[|v|..] == CRLF;
    assert (v + CRLF)[..|v|] == v;
  }

  /** Splits `r` at its first double quote: the text before it and the rest. */
  function Quoted(r: string): Option<(string, string)>
  {
    match IndexOf(r, "\"")
    case None => None
    case Some(q) => Some((r[..q], r[q..]))
  }

  lemma QuotedOf(p: string, rest: string)
    requires '"' !in p && |rest| > 0 && rest[0] == '"'
    ensures Quoted(p + rest) == Some((p, rest))
  {
    AbsentChar('"', p);
    assert rest == "\"" + rest[1..];
    assert p + rest == p + "\"" + rest[1..];
    IndexOfAfterPiece(p, "\"", rest[1..]);
    assert (p + rest)[..|p|] == p && (p + rest)[|p|..] == rest;
  }

  /** Reads the `Content-Disposition` header of a part, the file name and
      content type of a file part, and the content. */
  function ParsePart(s: string): Option<Field>
  {
    if !(Disposition <= s) then None
    else
      match Quoted(s[|Disposition|..])
      case None => None
      case Some((name, rest)) => ParseAfterName(name, rest)
  }

  function ParseAfterName(name: string, rest: string): Option<Field>
  {
    if NonFileTail <= rest then
      match Content(rest[|NonFileTail|..])
      case None => None
      case Some(v) => Some(Field(false, name, v, None))
    else if FileNameMid <= rest then
      match Quoted(rest[|FileNameMid|..])
      case None => None
      case Some((fileName, rest2)) =>
        if FileTail <= rest2 then
          match Content(rest2[|FileTail|..])
          case None => None
          case Some(v) => Some(Field(true, name, v, Some(fileName)))
        else None
    else None
  }

  lemma ParseNonFilePart(f: Field)
    requires !f.isFile && f.fileName.None? && '"' !in f.name
    ensures ParsePart(Part(f)) == Some(f)
  {
    PartShape(f);
    var rest := NonFileTail + (f.value + CRLF);
    QuotedOf(f.name, rest);
    ContentOf(f.value);
  }

  lemma ParseFileTail(name: string, fileName: string, v: string)
    requires '"' !in fileName
    ensures ParseAfterName(name, FileNameMid + (fileName + (FileTail + (v + CRLF))))
         == Some(Field(true, name, v, Some(fileName)))
  {
    var rest2 := FileTail + (v + CRLF);
    var rest := FileNameMid + (fileName + rest2);
    assert rest[1] == ';' && NonFileTail[1] == '\r';
    assert !(NonFileTail <= rest);
    assert FileNameMid <= rest && rest[|FileNameMid|..] == fileName + rest2;
    QuotedOf(fileName, rest2);
    assert FileTail <= rest2 && rest2[|FileTail|..] == v + CRLF;
    ContentOf(v);
  }

  lemma ParseFilePart(f: Field)
    requires f.isFile && f.fileName.Some? && '"' !in f.name && '"' !in f.fileName.value
    ensures ParsePart(Part(f)) == Some(f)
  {
    PartShape(f);
    var fileName := f.fileName.value;
    var rest := FileNameMid + (fileName + (FileTail + (f.value + CRLF)));
    QuotedOf(f.name, rest);
    ParseFileTail(f.name, fileName, f.value);
  }

  /** The field record is readable back from its part when the name and file
      name hold no double quote (nothing is escaped). */
  lemma ParsePartRoundTrip(f: Field)
    requires WellFormed(f) && '"' !in f.name
    requires f.isFile ==> '"' !in f.fileName.value
    ensures ParsePart(Part(f)) == Some(f)
  {
    if f.isFile {
      ParseFilePart(f);
    } else {
      ParseNonFilePart(f);
    }
  }

  /** Each part with the CRLF that ends the delimiter before it. */
  function Framed(fs: seq<Field>): seq<string>
  {
    Prefixed(CRLF, Parts(fs))
  }

  /** What lies between consecutive delimiters of `Message(fs, _)`: the framed
      parts, or a lone CRLF when there are no records. */
  function Frames(fs: seq<Field>): seq<string>
  {
    if fs == [] then [CRLF] else Framed(fs)
  }

  /** The body is the empty preamble, the frames and the closing "--" CRLF,
      joined by the delimiter "--" + boundary. */
  lemma MessageAsJoin(fs: seq<Field>, boundary: string)
    ensures Message(fs, boundary) == Join([""] + Frames(fs) + ["--" + CRLF], "--" + boundary)
  {
    assert fs == [] <==> Parts(fs) == [];
    FramingAsJoin(Parts(fs), "--" + boundary, CRLF);
  }

  /** A boundary the framing can be read back with: non-empty, without CR or LF. */
  predicate SafeBoundary(boundary: string) {
    boundary != [] && '\r' !in boundary && '\n' !in boundary
  }

  /** A record whose part can be read back: well formed, no double quote in
      its name or file name, and (section 5.1.1 of RFC 2046) the delimiter
      does not occur in its frame. */
  predicate Recoverable(f: Field, boundary: string) {
    WellFormed(f) && '"' !in f.name
    && (f.isFile ==> '"' !in f.fileName.value)
    && !Occurs("--" + boundary, CRLF + Part(f))
  }

  lemma CloseFree(boundary: string)
    requires SafeBoundary(boundary)
    ensures !Occurs("--" + boundary, "--" + CRLF)
  {
    var d := "--" + boundary;
    var close := "--" + CRLF;
    forall i | 0 <= i <= |close|
      ensures !OccursAt(d, close, i)
    {
      if i + |d| <= |close| {
        if i == 0 {
          assert close[i..i + |d|][2] == '\r' && d[2] == boundary[0];
        } else {
          assert close[i..i + |d|][1] == close[i + 1] && d[1] == '-';
        }
      }
    }
  }

  lemma FrameEnd(f: Field)
    ensures var fr := CRLF + Part(f); |fr| > 2 && fr[|fr| - 1] == '\n'
  {
    PartShape(f);
  }

  /** Splitting the body on the delimiter gives back the frames, one per
      record, between an empty preamble and the closing "--" CRLF. */
  lemma SplitMessage(fs: seq<Field>, boundary: string)
    requires SafeBoundary(boundary)
    requires forall f :: f in fs ==> Recoverable(f, boundary)
    ensures Split(Message(fs, boundary), "--" + boundary) == [""] + Frames(fs) + ["--" + CRLF]
  {
    var d := "--" + boundary;
    var ps := [""] + Frames(fs) + ["--" + CRLF];
    MessageAsJoin(fs, boundary);
    CloseFree(boundary);
    assert '\n' !in d;
    forall k | 0 <= k < |ps|
      ensures !Occurs(d, ps[k])
      ensures k < |ps| - 1 ==> EndsOutside(ps[k], d)
    {
      if 0 < k < |ps| - 1 && fs != [] {
        assert ps[k] == CRLF + Part(fs[k - 1]);
        assert fs[k - 1] in fs;
        FrameEnd(fs[k - 1]);
      }
    }
    SplitJoin(ps, d);
  }

  /** Reads one frame back: CRLF followed by a part. */
  function ParseFrame(frame: string): Option<Field>
  {
    if CRLF <= frame then ParsePart(frame[2..]) else None
  }

  lemma ParseFrameOf(f: Field, boundary: string)
    requires Recoverable(f, boundary)
    ensures ParseFrame(CRLF + Part(f)) == Some(f)
  {
    assert (CRLF + Part(f))[2..] == Part(f);
    ParsePartRoundTrip(f);
  }

  /** Reads the frames back, each as CRLF followed by a part. */
  function ParseFrames(frames: seq<string>): Option<seq<Field>>
  {
    if frames == [] then Some([])
    else match ParseFrame(frames[0])
      case None => None
      case Some(f) =>
        match ParseFrames(frames[1..])
        case None => None
        case Some(rest) => Some([f] + rest)
  }

  /** Reads a body built with `boundary` back into its records. */
  function Decode(message: string, boundary: string): Option<seq<Field>>
  {
    var pieces := Split(message, "--" + boundary);
    if |pieces| < 3 || pieces[0] != "" || pieces[|pieces| - 1] != "--" + CRLF then None
    else
      var frames := pieces[1..|pieces| - 1];
      if frames == [CRLF] then Some([]) else ParseFrames(frames)
  }

  /** Frames that each read back as a record read back as the list of those records. */
  lemma {:induction false} ParseFramesEach(frames: seq<string>, fs: seq<Field>)
    requires |frames| == |fs|
    requires forall k :: 0 <= k < |frames| ==> ParseFrame(frames[k]) == Some(fs[k])
    ensures ParseFrames(frames) == Some(fs)
    decreases |frames|
  {
    if frames != [] {
      ParseFramesEach(frames[1..], fs[1..]);
      assert [fs[0]] + fs[1..] == fs;
    }
  }

  lemma ParseFramed(fs: seq<Field>, boundary: string)
    requires forall f :: f in fs ==> Recoverable(f, boundary)
    ensures ParseFrames(Framed(fs)) == Some(fs)
  {
    forall k | 0 <= k < |fs|
      ensures ParseFrame(Framed(fs)[k]) == Some(fs[k])
    {
      assert fs[k] in fs;
      ParseFrameOf(fs[k], boundary);
    }
    ParseFramesEach(Framed(fs), fs);
  }

  /** Round trip: under a safe boundary, reading back a body that
      `buildMessage` built gives exactly the records it was built from. */
  lemma DecodeMessage(fs: seq<Field>, boundary: string)
    requires SafeBoundary(boundary)
    requires forall f :: f in fs ==> Recoverable(f, boundary)
    ensures Decode(Message(fs, boundary), boundary) == Some(fs)
  {
    SplitMessage(fs, boundary);
    var pieces := [""] + Frames(fs) + ["--" + CRLF];
    assert pieces[1..|pieces| - 1] == Frames(fs);
    if fs != [] {
      FrameEnd(fs[0]);
      assert Framed(fs)[0] == CRLF + Part(fs[0]);
      ParseFramed(fs, boundary);
    }
  }

  /** Splitting a non-empty body on "--" + boundary yields one piece per
      record plus the preamble and the closing piece, and each record's piece
      is its part. */
  lemma PartCount(fs: seq<Field>, boundary: string)
    requires SafeBoundary(boundary) && fs != []
    requires forall f :: f in fs ==> Recoverable(f, boundary)
    ensures |Split(Message(fs, boundary), "--" + boundary)| == |fs| + 2
    ensures forall k :: 0 <= k < |fs| ==>
      Split(Message(fs, boundary), "--" + boundary)[k + 1] == CRLF + Part(fs[k])
  {
    SplitMessage(fs, boundary);
    var pieces := Split(Message(fs, boundary), "--" + boundary);
    assert pieces == [""] + Framed(fs) + ["--" + CRLF];
    forall k | 0 <= k < |fs|
      ensures pieces[k + 1] == CRLF + Part(fs[k])
    {
      assert pieces[k + 1] == Framed(fs)[k];
    }
  }
}
