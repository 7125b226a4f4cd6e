/**
 The earlier draft of the response object, http/response.py. Its
 constructor and setters are the same code as the final version's, so they
 are modelled by delegating to `HttpResponse`; its `send` differs in writing
 each line as text rather than as UTF-8 bytes.

 The module also holds a small client-side reader of the rendered text, the
 independent account of the line sequence: it finds the status code on the
 first line, the length on the `Content-Length` line, takes that many
 characters before the final LF as the body, and reads the `Connection` line
 that ends the header block.
 */
module DraftHttpResponse {
  import opened PyValues
  import opened Text
  import opened HttpResponse

  /** The draft constructor, with the same status check and coercions as the final one. */
  function New(body: Value, status: string, mimetype: Option<string>, close: bool,
               header: Option<seq<(string, string)>>): (r: Result<Response>)
    ensures r.Ok? <==> status in HttpStatus
    ensures r.Raised? ==> r.error == ValueError
    ensures r.Ok? ==> Valid(r.value) && r.value.status == status
    ensures r.Ok? && body.StrV? ==> r.value.body == body.s
    ensures r.Ok? && !body.StrV? ==> r.value.body == ""
    ensures r.Ok? ==> r.value.mimetype == mimetype && r.value.close == close
    ensures r.Ok? && header.None? ==> r.value.header == []
    ensures r.Ok? && header.Some? ==> r.value.header == header.value
  {
    HttpResponse.New(body, status, mimetype, close, header)
  }

  /** The draft `body` setter: non-strings, `None` included, become "". */
  function SetBody(r: Response, v: Value): (r': Response)
    ensures r'.body == (if v.StrV? then v.s else "")
    ensures r'.status == r.status && r'.mimetype == r.mimetype
    ensures r'.close == r.close && r'.header == r.header
  {
    HttpResponse.SetBody(r, v)
  }

  /** The draft `status` setter: `ValueError` and no change for an unknown name. */
  function SetStatus(r: Response, status: string): (s: Step<Response>)
    ensures s.raised.None? <==> status in HttpStatus
    ensures s.raised.Some? ==> s.raised == Some(ValueError) && s.after == r
    ensures s.raised.None? ==> s.after == r.(status := status)
  {
    HttpResponse.SetStatus(r, status)
  }

  /**
   The draft `send(writer)`: the text its `writer.write` calls leave on the
   stream. The final version writes exactly the UTF-8 encoding of this text,
   and both stop at the same point.
   */
  function Send(r: Response): (w: Emission<char>)
    ensures HttpResponse.Send(r).out == Encode(w.out)
    ensures HttpResponse.Send(r).raised == w.raised
    ensures Valid(r) ==> (w.raised.Some? <==> r.status != "NOT_FOUND" && r.mimetype.Some?)
  {
    MimetypeFailureCases(r);
    Emission(Concat(Writes(r).out), Writes(r).raised)
  }

  // ---------------------------------------------------------------------------
  // Reading the response back
  // ---------------------------------------------------------------------------

  /** What a client learns from a response: status code, body and close flag. */
  datatype Reply = Reply(code: nat, body: string, close: bool)

  /** Index of the first LF of `s`, or `|s|` when there is none. */
  function LineEnd(s: string): (k: nat)
    ensures k <= |s|
    ensures k < |s| ==> s[k] == '\n'
    ensures forall j :: 0 <= j < k ==> s[j] != '\n'
  {
    if s == [] || s[0] == '\n' then 0 else 1 + LineEnd(s[1..])
  }

  predicate EndsWith(s: string, suffix: string)
  {
    |suffix| <= |s| && s[|s| - |suffix|..] == suffix
  }

  /** The code on a status line (without its LF): three digits after "HTTP/1.1 ". */
  function StatusCode(line: string): Option<nat>
  {
    if |line| >= 12 && line[..9] == "HTTP/1.1 " && AllDigits(line[9..12])
    then Some(ParseDecimal(line[9..12])) else None
  }

  /** The value on a "Content-Length: n" line (without its LF). */
  function DeclaredLength(line: string): Option<nat>
  {
    if |line| >= 16 && line[..16] == "Content-Length: " && AllDigits(line[16..])
    then Some(ParseDecimal(line[16..])) else None
  }

  /**
   The last `n` characters before the closing LF, which must follow the LF of
   the blank line, and the close flag from the `Connection` line before them.
   */
  function BodyAndClose(text: string, n: nat): Option<(string, bool)>
  {
    if |text| < n + 2 || text[|text| - 1] != '\n' || text[|text| - n - 2] != '\n' then None
    else
      var head := text[..|text| - n - 2];
      var body := text[|text| - n - 1..|text| - 1];
      if EndsWith(head, CloseLine) then Some((body, true))
      else if EndsWith(head, KeepAliveLine) then Some((body, false))
      else None
  }

  /**
   A client's reading of a response text: the code from the first line, the
   length `n` from the second, then the body and close flag as
   `BodyAndClose` finds them.
   */
  function ReadReply(text: string): Option<Reply>
  {
    var e := LineEnd(text);
    if e == |text| then None
    else
      var rest := text[e + 1..];
      var f := LineEnd(rest);
      if f == |rest| then None
      else
        match (StatusCode(text[..e]), DeclaredLength(rest[..f]))
        case (Some(code), Some(n)) => ReplyFrom(code, BodyAndClose(text, n))
        case _ => None
  }

  function ReplyFrom(code: nat, found: Option<(string, bool)>): Option<Reply>
  {
    match found
    case Some((body, close)) => Some(Reply(code, body, close))
    case None => None
  }

  /** Five strings in a row, grouped to the right or to the left. */
  lemma Regroup(a: string, b: string, c: string, d: string, e: string)
    ensures a + (b + (c + (d + e))) == a + b + c + d + e
  {
  }

  predicate NoLf(s: string)
  {
    forall j :: 0 <= j < |s| ==> s[j] != '\n'
  }

  /** A single line: text without LF, then the LF that ends it. */
  predicate OneLine(line: string)
  {
    0 < |line| && line[|line| - 1] == '\n' && NoLf(line[..|line| - 1])
  }

  /** A status line the reader takes to carry `code`. */
  predicate ReadsAsStatus(line: string, code: nat)
  {
    OneLine(line) && StatusCode(line[..|line| - 1]) == Some(code)
  }

  /** A `Content-Length` line the reader takes to declare `n`. */
  predicate ReadsAsLength(line: string, n: nat)
  {
    OneLine(line) && DeclaredLength(line[..|line| - 1]) == Some(n)
  }

  /** `LineEnd` finds the first LF. */
  lemma LineEndIs(s: string, k: nat)
    requires k < |s| && s[k] == '\n'
    requires forall j :: 0 <= j < k ==> s[j] != '\n'
    ensures LineEnd(s) == k
  {
  }

  /** The text of a completed `send`, given its status line. */
  function Rendered(statusLine: string, body: string, header: seq<(string, string)>, close: bool): string
  {
    statusLine + (ContentLengthLine(body) + (FixedContentType
      + (Concat(HeaderLines(header)) + (ConnectionLine(close) + ("\n" + body + "\n")))))
  }

  /** The text `send` writes when it completes. */
  lemma SendText(r: Response)
    requires !FailsOnMimetype(r)
    ensures Concat(Writes(r).out) == Rendered(StatusLine(r.status), r.body, r.header, r.close)
  {
    var sl, cl, ct := StatusLine(r.status), ContentLengthLine(r.body), FixedContentType;
    var hs := HeaderLines(r.header);
    var conn, tail := ConnectionLine(r.close), "\n" + r.body + "\n";
    assert Writes(r).out == [sl, cl, ct] + hs + [conn, tail];
    ConcatFive(sl, cl, ct, hs, conn, tail);
  }

  /** The first line of `line + x` is `line`. */
  lemma FirstLine(text: string, line: string, x: string)
    requires text == line + x && OneLine(line)
    ensures LineEnd(text) == |line| - 1
    ensures text[..LineEnd(text)] == line[..|line| - 1]
    ensures text[LineEnd(text) + 1..] == x
  {
    assert forall j :: 0 <= j < |line| ==> text[j] == line[j];
    assert forall j :: 0 <= j < |line| - 1 ==> line[j] == line[..|line| - 1][j];
    LineEndIs(text, |line| - 1);
  }

  /** A status line built as "HTTP/1.1 ", three digits, a reason phrase and LF. */
  lemma StatusLineOf(code: string, reason: string)
    requires |code| == 3 && AllDigits(code) && NoLf(reason)
    ensures ReadsAsStatus("HTTP/1.1 " + code + reason + "\n", ParseDecimal(code))
  {
    var line := "HTTP/1.1 " + code + reason + "\n";
    var text := line[..|line| - 1];
    assert text == "HTTP/1.1 " + code + reason;
    assert text[..9] == "HTTP/1.1 ";
    assert text[9..12] == code;
    forall j | 0 <= j < |text|
      ensures text[j] != '\n'
    {
      if 9 <= j < 12 {
        assert text[j] == code[j - 9];
      } else if j >= 12 {
        assert text[j] == reason[j - 12];
      }
    }
  }

  lemma Read200()
    ensures ReadsAsStatus(Line200, 200)
  {
    assert Line200 == "HTTP/1.1 " + "200" + " OK" + "\n";
    Code200();
    StatusLineOf("200", " OK");
  }

  /** The digits "200" and the reason " OK" as the reader needs them. */
  lemma Code200()
    ensures AllDigits("200") && ParseDecimal("200") == 200 && NoLf(" OK")
  {
    assert "200"[..2] == "20" && "20"[..1] == "2" && "2"[..0] == "";
  }

  lemma Read404()
    ensures ReadsAsStatus(Line404, 404)
  {
    assert Line404 == "HTTP/1.1 " + "404" + " Not Found" + "\n";
    Code404();
    StatusLineOf("404", " Not Found");
  }

  /** The digits "404" and the reason " Not Found" as the reader needs them. */
  lemma Code404()
    ensures AllDigits("404") && ParseDecimal("404") == 404 && NoLf(" Not Found")
  {
    assert "404"[..2] == "40" && "40"[..1] == "4" && "4"[..0] == "";
  }

  /** The `Content-Length` line is one line, and the reader gets the body length from it. */
  lemma ReadContentLength(body: string)
    ensures ReadsAsLength(ContentLengthLine(body), |body|)
  {
    var cl := ContentLengthLine(body);
    var d := Decimal(|body|);
    var prefix := "Content-Length: ";
    assert cl == prefix + d + "\n";
    var line := cl[..|cl| - 1];
    assert line == prefix + d;
    forall j | 0 <= j < |line|
      ensures line[j] != '\n'
    {
      if j >= 16 {
        assert line[j] == d[j - 16];
        assert IsDigit(d[j - 16]);
      } else {
        assert line[j] == prefix[j];
      }
    }
    assert line[..16] == prefix;
    assert line[16..] == d;
    DecimalRoundTrip(|body|);
  }

  /** The reader's view of the end of the text: the blank line, the body and the closing LF. */
  lemma ReadTail(text: string, head: string, body: string)
    requires text == head + ("\n" + body + "\n")
    ensures |text| >= |body| + 2
    ensures text[|text| - 1] == '\n' && text[|text| - |body| - 2] == '\n'
    ensures text[..|text| - |body| - 2] == head
    ensures text[|text| - |body| - 1..|text| - 1] == body
  {
    var tail := "\n" + body + "\n";
    assert text[|text| - |body| - 2] == tail[0];
  }

  /** The `Connection` line that ends the header block gives the close flag back. */
  lemma ReadConnection(front: string, close: bool)
    ensures EndsWithConnection(front + ConnectionLine(close), close)
  {
    var head := front + ConnectionLine(close);
    if !close {
      assert head[|head| - |CloseLine|..] == KeepAliveLine[5..];
      assert KeepAliveLine[5..][0] == 'c';
    }
  }

  /** The head of the text ends with the `Connection` line for `close`, as the reader sees it. */
  predicate EndsWithConnection(head: string, close: bool)
  {
    && (EndsWith(head, CloseLine) <==> close)
    && (!close ==> EndsWith(head, KeepAliveLine))
  }

  /** The reader's `BodyAndClose` on a text that ends with the blank line and the body. */
  lemma ReadBodyAndClose(text: string, head: string, body: string, close: bool)
    requires text == head + ("\n" + body + "\n")
    requires EndsWithConnection(head, close)
    ensures BodyAndClose(text, |body|) == Some((body, close))
  {
    ReadTail(text, head, body);
  }

  /** The reader's `ReadReply` on a text whose first two lines carry the code and the length. */
  lemma ReadLines(text: string, statusLine: string, cl: string, x: string, y: string, code: nat, n: nat)
    requires text == statusLine + x && x == cl + y
    requires ReadsAsStatus(statusLine, code) && ReadsAsLength(cl, n)
    ensures ReadReply(text) == ReplyFrom(code, BodyAndClose(text, n))
  {
    FirstLine(text, statusLine, x);
    FirstLine(x, cl, y);
  }

  /** `ReadRendered` over the parts of the text, each known only by what the reader needs. */
  lemma ReadParts(text: string, statusLine: string, code: nat, cl: string, ct: string, hs: string,
                  conn: string, body: string, close: bool)
    requires text == statusLine + (cl + (ct + (hs + (conn + ("\n" + body + "\n")))))
    requires ReadsAsStatus(statusLine, code) && ReadsAsLength(cl, |body|)
    requires EndsWithConnection(statusLine + cl + (ct + hs) + conn, close)
    ensures ReadReply(text) == Some(Reply(code, body, close))
  {
    var tail := "\n" + body + "\n";
    var y := ct + (hs + (conn + tail));
    assert ct + (hs + (conn + tail)) == (ct + hs) + (conn + tail);
    Regroup(statusLine, cl, ct + hs, conn, tail);
    ReadLines(text, statusLine, cl, cl + y, y, code, |body|);
    ReadBodyAndClose(text, statusLine + cl + (ct + hs) + conn, body, close);
  }

  /** The reader recovers code, body and close flag from a rendered text. */
  lemma ReadRendered(statusLine: string, code: nat, body: string, header: seq<(string, string)>, close: bool)
    requires ReadsAsStatus(statusLine, code)
    ensures ReadReply(Rendered(statusLine, body, header, close)) == Some(Reply(code, body, close))
  {
    var cl, ct, hs := ContentLengthLine(body), FixedContentType, Concat(HeaderLines(header));
    ReadContentLength(body);
    ReadConnection(statusLine + cl + (ct + hs), close);
    ReadParts(Rendered(statusLine, body, header, close), statusLine, code, cl, ct, hs, ConnectionLine(close), body, close);
  }

  /**
   The length the reader finds on the `Content-Length` line is the body's
   number of characters (`len` of a `str`), while the body goes out UTF-8
   encoded: the declared length equals the number of body octets, as section
   14.13 of RFC 2616 asks, exactly for ASCII bodies, and otherwise falls
   short of it.
   */
  lemma ContentLengthCountsCharacters(body: string)
    ensures var line := ContentLengthLine(body);
      DeclaredLength(line[..|line| - 1]) == Some(|body|)
    ensures var line := ContentLengthLine(body);
      DeclaredLength(line[..|line| - 1]).value <= |Encode(body)|
    ensures var line := ContentLengthLine(body);
      DeclaredLength(line[..|line| - 1]).value == |Encode(body)| <==> IsAscii(body)
  {
    ReadContentLength(body);
    EncodedLength(body);
  }

  /** The reader's view of what a valid response writes when `send` completes. */
  lemma ReadWrites(r: Response)
    requires Valid(r) && (r.status == "NOT_FOUND" || r.mimetype.None?)
    ensures !FailsOnMimetype(r)
    ensures ReadReply(Concat(Writes(r).out)) == Some(Reply(if r.status == "NOT_FOUND" then 404 else 200, r.body, r.close))
  {
    MimetypeFailureCases(r);
    SendText(r);
    StatusLineSelection(r.status);
    if r.status == "NOT_FOUND" {
      Read404();
      ReadRendered(Line404, 404, r.body, r.header, r.close);
    } else {
      Read200();
      ReadRendered(Line200, 200, r.body, r.header, r.close);
    }
  }

  /**
   Round trip: a valid response in the `404` branch or without a mimetype is
   sent in full, and the client reads back code `200` for both `OK` and
   `NOT_OK` and `404` for `NOT_FOUND`, the body exactly, and the close flag.
   */
  lemma ReadBack(r: Response)
    requires Valid(r) && (r.status == "NOT_FOUND" || r.mimetype.None?)
    ensures Send(r).raised.None?
    ensures ReadReply(Send(r).out) == Some(Reply(if r.status == "NOT_FOUND" then 404 else 200, r.body, r.close))
  {
    ReadWrites(r);
  }
}
