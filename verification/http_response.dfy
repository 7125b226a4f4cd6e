/**
 The HTTP/1.1 response object of urest/http/response.py: a status drawn from
 a fixed set of three names, a body that is always a string, an optional
 mimetype, a close-connection flag and extra header fields, and `send`, which
 writes the status line (section 6.1 of RFC 2616), `Content-Length` (section
 14.13), `Content-Type` (section 14.17), the extra fields, `Connection`
 (section 14.10), a blank line and the body, each write UTF-8 encoded.
 */
module HttpResponse {
  import opened PyValues
  import opened Text

  /** The `HTTPStatus` set: the only status names a response may carry. */
  const HttpStatus: set<string> := {"OK", "NOT_OK", "NOT_FOUND"}

  const Line200 := "HTTP/1.1 200 OK\n"
  const Line400 := "HTTP/1.1 400 Bad Request\n"
  const Line404 := "HTTP/1.1 404 Not Found\n"
  const Line500 := "HTTP/1.1 500 Internal Server Error\n"
  const FixedContentType := "Content-Type: text/html\n"
  const CloseLine := "Connection: close\n"
  const KeepAliveLine := "Connection: keep-alive\n"

  /**
   An `HTTPResponse` object. `header` is the extra-field mapping in its
   iteration order, keys and values already as the text an f-string makes of them.
   */
  datatype Response = Response(
    status: string,
    body: string,
    mimetype: Option<string>,
    close: bool,
    header: seq<(string, string)>)

  /** The class invariant: the status is one of the three known names. */
  predicate Valid(r: Response)
  {
    r.status in HttpStatus
  }

  /** The text stored for a body argument: a `str` as given, anything else (`None` included) as "". */
  function BodyText(v: Value): (t: string)
    ensures v.StrV? ==> t == v.s
    ensures !v.StrV? ==> t == ""
  {
    if v.StrV? then v.s else ""
  }

  /**
   `HTTPResponse(body, status, mimetype, close, header)`: rejects a status
   outside `HTTPStatus` with `ValueError`, coerces the body to a string, and
   replaces a missing header mapping by an empty one.
   */
  function New(body: Value, status: string, mimetype: Option<string>, close: bool,
               header: Option<seq<(string, string)>>): (r: Result<Response>)
    ensures r.Ok? <==> status in HttpStatus
    ensures r.Raised? ==> r.error == ValueError
    ensures r.Ok? ==> Valid(r.value) && r.value.status == status
    ensures r.Ok? && body.StrV? ==> r.value.body == body.s
    ensures r.Ok? && !body.StrV? ==> r.value.body == ""
    ensures r.Ok? ==> r.value.mimetype == mimetype && r.value.close == close
    ensures r.Ok? && header.None? ==> r.value.header == []
    ensures r.Ok? && header.Some? ==> r.value.header == header.value
  {
    if status in HttpStatus then
      Ok(Response(status, BodyText(body), mimetype, close, if header.None? then [] else header.value))
    else
      Raised(ValueError)
  }

  /** `HTTPResponse()` with every argument left at its default. */
  function Default(): (r: Response)
    ensures New(StrV(""), "OK", None, true, None) == Ok(r)
  {
    Response("OK", "", None, true, [])
  }

  /** The `body` setter: a `str` is stored, anything else stores "". */
  function SetBody(r: Response, v: Value): (r': Response)
    ensures v.StrV? ==> r'.body == v.s
    ensures !v.StrV? ==> r'.body == ""
    ensures r'.status == r.status && r'.mimetype == r.mimetype
    ensures r'.close == r.close && r'.header == r.header
  {
    r.(body := BodyText(v))
  }

  /**
   The `status` setter: a known status name replaces the status; any other
   value raises `ValueError` and leaves the object exactly as it was.
   */
  function SetStatus(r: Response, status: string): (s: Step<Response>)
    ensures status in HttpStatus ==> s.raised.None? && s.after.status == status
    ensures status !in HttpStatus ==> s.raised == Some(ValueError) && s.after == r
    ensures s.after.body == r.body && s.after.mimetype == r.mimetype
    ensures s.after.close == r.close && s.after.header == r.header
    ensures Valid(r) ==> Valid(s.after)
  {
    if status in HttpStatus then Step(r.(status := status), None) else Step(r, Some(ValueError))
  }

  /**
   The status line `send` picks, by Python substring tests tried in order:
   `"OK" in status`, then `"NOT_OK" in status`, then `"NOT_FOUND" in status`.
   */
  function StatusLine(status: string): (line: string)
    ensures line == Line200 || line == Line400 || line == Line404 || line == Line500
    ensures line == Line200 <==> Contains(status, "OK")
  {
    assert |Line200| == 16 && |Line400| == 25 && |Line404| == 23 && |Line500| == 35;
    if Contains(status, "OK") then Line200
    else if Contains(status, "NOT_OK") then Line400
    else if Contains(status, "NOT_FOUND") then Line404
    else Line500
  }

  /**
   Under the class invariant the substring tests send `OK` and `NOT_OK` alike
   to `200 OK` (since "OK" occurs inside "NOT_OK") and `NOT_FOUND` to `404`;
   neither the `400` nor the `500` line can be chosen.
   */
  lemma StatusLineSelection(status: string)
    requires status in HttpStatus
    ensures status == "NOT_FOUND" ==> StatusLine(status) == Line404
    ensures status != "NOT_FOUND" ==> StatusLine(status) == Line200
    ensures StatusLine(status) != Line400 && StatusLine(status) != Line500
    ensures Contains(status, "OK") <==> status != "NOT_FOUND"
  {
    LinesDistinct();
    if status == "NOT_FOUND" {
      NotFoundTests();
    } else {
      assert status == "OK" || status == "NOT_OK";
      OkTest(status);
    }
  }

  /** The four status lines differ from one another. */
  lemma LinesDistinct()
    ensures Line200 != Line400 && Line200 != Line404 && Line200 != Line500
    ensures Line404 != Line400 && Line404 != Line500
  {
    assert |Line200| == 16 && |Line400| == 25 && |Line404| == 23 && |Line500| == 35;
  }

  /** "OK" occurs in both `OK` and `NOT_OK`. */
  lemma OkTest(status: string)
    requires status == "OK" || status == "NOT_OK"
    ensures Contains(status, "OK") && StatusLine(status) == Line200
  {
    if status == "NOT_OK" {
      assert OccursAt(status, "OK", 4);
      ContainsIffOccurs(status, "OK");
    } else {
      ContainsSelf(status);
    }
  }

  /** `NOT_FOUND` contains neither "OK" nor "NOT_OK", and contains itself. */
  lemma NotFoundTests()
    ensures !Contains("NOT_FOUND", "OK") && !Contains("NOT_FOUND", "NOT_OK")
    ensures Contains("NOT_FOUND", "NOT_FOUND") && StatusLine("NOT_FOUND") == Line404
  {
    MissingCharNotContained("NOT_FOUND", "OK", 1);
    MissingCharNotContained("NOT_FOUND", "NOT_OK", 5);
    ContainsSelf("NOT_FOUND");
  }

  /** The `Content-Length` line: the body's length counted in characters. */
  function ContentLengthLine(body: string): (line: string)
    ensures 18 <= |line| && line[|line| - 1] == '\n'
  {
    "Content-Length: " + Decimal(|body|) + "\n"
  }

  /** The `Connection` line, which tells the two flag values apart. */
  function ConnectionLine(close: bool): (line: string)
    ensures line == CloseLine <==> close
    ensures !close ==> line == KeepAliveLine
  {
    assert |CloseLine| == 18 && |KeepAliveLine| == 23;
    if close then CloseLine else KeepAliveLine
  }

  /** The line written for one extra header field. */
  function HeaderLine(field: (string, string)): (line: string)
    ensures |line| == |field.0| + |field.1| + 3
    ensures line[..|field.0|] == field.0 && line[|line| - 1] == '\n'
  {
    field.0 + ": " + field.1 + "\n"
  }

  function HeaderLines(header: seq<(string, string)>): (ls: seq<string>)
    ensures |ls| == |header|
    ensures forall i :: 0 <= i < |header| ==> ls[i] == HeaderLine(header[i])
  {
    if header == [] then [] else [HeaderLine(header[0])] + HeaderLines(header[1..])
  }

  /** Whether `send` stops on the undefined `self.mimetype` attribute. */
  predicate FailsOnMimetype(r: Response)
  {
    Contains(r.status, "OK") && r.mimetype.Some?
  }

  /** Under the class invariant `send` fails on the mimetype exactly outside the `404` branch. */
  lemma MimetypeFailureCases(r: Response)
    ensures Valid(r) ==> (FailsOnMimetype(r) <==> r.status != "NOT_FOUND" && r.mimetype.Some?)
  {
    if Valid(r) {
      StatusLineSelection(r.status);
    }
  }

  /**
   The text of each `writer.write` call `send` makes, in order. In the `200`
   branch a mimetype other than `None` makes the code read `self.mimetype`,
   an attribute the class never defines, so `send` raises `AttributeError`
   right after the status line. Otherwise the status line is followed by
   the `Content-Length` line, the fixed `Content-Type: text/html` line, one
   line per extra field in the mapping's order, exactly one `Connection`
   line chosen by the close flag, and a blank line with the body; every line
   ends in a bare LF.
   */
  function Writes(r: Response): (w: Emission<string>)
    ensures |w.out| >= 1 && w.out[0] == StatusLine(r.status)
    ensures w.raised.Some? <==> FailsOnMimetype(r)
    ensures w.raised.Some? ==> w.raised == Some(AttributeError) && |w.out| == 1
    ensures w.raised.None? ==>
      && |w.out| == |r.header| + 5
      && w.out[1] == ContentLengthLine(r.body)
      && w.out[2] == FixedContentType
      && (forall i :: 0 <= i < |r.header| ==> w.out[3 + i] == HeaderLine(r.header[i]))
      && w.out[|w.out| - 2] == (if r.close then CloseLine else KeepAliveLine)
      && w.out[|w.out| - 1] == "\n" + r.body + "\n"
  {
    if FailsOnMimetype(r) then
      Emission([StatusLine(r.status)], Some(AttributeError))
    else
      Emission([StatusLine(r.status), ContentLengthLine(r.body), FixedContentType]
               + HeaderLines(r.header)
               + [ConnectionLine(r.close), "\n" + r.body + "\n"],
               None)
  }

  /**
   `send(writer)`: the bytes the successive `writer.write(line.encode())`
   calls leave on the stream, which are the UTF-8 encoding of the lines'
   concatenation.
   */
  function Send(r: Response): (w: Emission<byte>)
    ensures w.raised == Writes(r).raised
    ensures w.out == Encode(Concat(Writes(r).out))
  {
    var lines := Writes(r);
    EncodeEach(lines.out);
    Emission(EncodeAll(lines.out), lines.raised)
  }
}
