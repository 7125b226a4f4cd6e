/**
 The request handling of `RESTServer.dispatch_noun` in http/server.py: the
 request line is decoded, checked against the empty request, cut down to a
 verb by searching for a space within its first six characters, and the verb
 picks the body and status of a fresh draft `HTTPResponse`, which is then
 sent, followed by one more LF.
 */
module RestServer {
  import opened PyValues
  import opened Text
  import opened HttpResponse
  import DraftHttpResponse

  const TestPage := "<http><body><p>Test Request</p></body></http>"
  const InvalidPage := "<http><body><p>Invalid Request</p></body></http>"

  /** The verbs the server answers, all other verbs being invalid. */
  const Verbs: set<string> := {"DELETE", "GET", "POST", "PUT"}

  // ---------------------------------------------------------------------------
  // The empty-request check
  // ---------------------------------------------------------------------------

  /** A Python object the request line is compared with: a `str` or a `bytes`. */
  datatype PyText = Str(s: string) | Bytes(b: seq<byte>)

  /**
   `request_line in [b"", b"\r\n"]`, asked of the request line after it has
   been decoded to a `str`. A `str` never equals a `bytes`, so the check never
   fires and an empty line goes on to the verb dispatch.
   */
  function IsEmptyRequest(requestLine: string): (b: bool)
    ensures !b
  {
    Str(requestLine) in [Bytes([]), Bytes([13, 10])]
  }

  // ---------------------------------------------------------------------------
  // Extracting the verb
  // ---------------------------------------------------------------------------

  /** `line.find(" ", i, 6)`: the first space at an index in `[i, 6)`, or `-1`. */
  function FindSpaceFrom(line: string, i: nat): (k: int)
    requires i <= 6
    ensures -1 <= k <= 5
    ensures k >= 0 ==> i <= k < |line| && line[k] == ' '
    ensures k >= 0 ==> forall j :: i <= j < k ==> line[j] != ' '
    ensures k == -1 ==> forall j :: i <= j < 6 && j < |line| ==> line[j] != ' '
    decreases 6 - i
  {
    if i == 6 || i >= |line| then -1
    else if line[i] == ' ' then i
    else FindSpaceFrom(line, i + 1)
  }

  /** `request_line.find(" ", 0, 6)`. */
  function FindSpace(line: string): (k: int)
    ensures -1 <= k <= 5
    ensures k >= 0 ==> k < |line| && line[k] == ' ' && forall j :: 0 <= j < k ==> line[j] != ' '
    ensures k == -1 ==> forall j :: 0 <= j < 6 && j < |line| ==> line[j] != ' '
  {
    FindSpaceFrom(line, 0)
  }

  /** The end index Python uses for the slice `s[0:stop]` of a sequence of length `n`. */
  function SliceEnd(n: nat, stop: int): (k: nat)
    ensures k <= n
    ensures stop >= 0 ==> k == if stop < n then stop else n
    ensures stop < 0 ==> k == if n + stop > 0 then n + stop else 0
  {
    if stop < 0 then (if n + stop > 0 then n + stop else 0)
    else if stop < n then stop else n
  }

  /**
   `request_line[0:first_space].upper()`, `first_space` being the search
   result, clamped to `6` (a clamp the search result never reaches). When
   there is no space the search gives `-1`, and the slice `[0:-1]` drops the
   last character of the line.
   */
  function Verb(line: string): (v: string)
    ensures |v| <= |line| && v == Upper(line)[..|v|]
    ensures FindSpace(line) >= 0 ==> |v| == FindSpace(line) && SpaceFree(v)
    ensures FindSpace(line) < 0 ==> |v| == if |line| == 0 then 0 else |line| - 1
  {
    var firstSpace := FindSpace(line);
    var cut := if firstSpace > 6 then 6 else firstSpace;
    UpperPrefix(line, SliceEnd(|line|, cut));
    Upper(line[..SliceEnd(|line|, cut)])
  }

  /** A keyword with no space in it. */
  predicate SpaceFree(m: string)
  {
    forall i :: 0 <= i < |m| ==> m[i] != ' '
  }

  /**
   Which request lines give the verb `m` (for a verb of one to six
   characters without a space): those that start with `m` in any case and
   then either have a space right after it, within the six-character search
   window, or end one character after it. A six-character verb such as
   `DELETE` is thus only recognised on a line of exactly seven characters.
   */
  lemma VerbIs(line: string, m: string)
    requires 1 <= |m| <= 6 && SpaceFree(m)
    ensures Verb(line) == m <==>
      && |line| > |m|
      && Upper(line[..|m|]) == m
      && (|line| == |m| + 1 || (|m| < 6 && line[|m|] == ' '))
  {
    var k := FindSpace(line);
    if Verb(line) == m {
      if k >= 0 {
        assert |line[..k]| == |m|;
      } else {
        assert |line| - 1 == |m|;
      }
    }
    if |line| > |m| && Upper(line[..|m|]) == m {
      forall j | 0 <= j < |m|
        ensures line[j] != ' '
      {
        assert Upper(line[..|m|])[j] == UpperChar(line[j]);
        UpperCharSpace(line[j]);
      }
      if |m| < 6 && line[|m|] == ' ' {
        assert k == |m|;
      } else if |line| == |m| + 1 {
        assert k == -1;
      }
    }
  }

  /** Upper-casing the line first never changes the verb found. */
  lemma VerbIgnoresCase(line: string)
    ensures Verb(Upper(line)) == Verb(line)
  {
    var u := Upper(line);
    forall j | 0 <= j < |line|
      ensures u[j] == ' ' <==> line[j] == ' '
    {
      UpperCharSpace(line[j]);
    }
    FindSpaceAgree(line, u, 0);
    var e := SliceEnd(|line|, if FindSpace(line) > 6 then 6 else FindSpace(line));
    UpperPrefix(line, e);
    UpperIdempotent(line[..e]);
  }

  /** The space search sees the same spaces in two strings of equal length with spaces at the same places. */
  lemma {:induction false} FindSpaceAgree(a: string, b: string, i: nat)
    requires i <= 6 && |a| == |b|
    requires forall j :: 0 <= j < |a| ==> (a[j] == ' ' <==> b[j] == ' ')
    ensures FindSpaceFrom(a, i) == FindSpaceFrom(b, i)
    decreases 6 - i
  {
    if i < 6 && i < |a| && a[i] != ' ' {
      FindSpaceAgree(a, b, i + 1);
    }
  }

  // ---------------------------------------------------------------------------
  // Dispatch
  // ---------------------------------------------------------------------------

  /**
   The response `dispatch_noun` builds for a request line: the default
   response with the body the verb selects, and for any other verb the
   invalid-request page under the `NOT_OK` status.
   */
  function Classify(line: string): (r: Response)
    ensures Valid(r) && r.mimetype.None? && r.close && r.header == []
    ensures r.status == "OK" <==> Verb(line) in Verbs
    ensures r.status != "OK" ==> r.status == "NOT_OK" && r.body == InvalidPage
    ensures r.status == "OK" ==> r.body == (if Verb(line) == "GET" then TestPage else "")
  {
    var verb := Verb(line);
    var response := Default();
    if verb == "DELETE" then DraftHttpResponse.SetBody(response, StrV(""))
    else if verb == "GET" then DraftHttpResponse.SetBody(response, StrV(TestPage))
    else if verb == "POST" then DraftHttpResponse.SetBody(response, StrV(""))
    else if verb == "PUT" then DraftHttpResponse.SetBody(response, StrV(""))
    else DraftHttpResponse.SetStatus(DraftHttpResponse.SetBody(response, StrV(InvalidPage)), "NOT_OK").after
  }

  /** A `DELETE` is recognised only on a request line of exactly seven characters. */
  lemma DeleteNeedsSevenCharacters(line: string)
    ensures Verb(line) == "DELETE" <==> |line| == 7 && Upper(line[..6]) == "DELETE"
  {
    VerbIs(line, "DELETE");
  }

  /** A `GET`, `POST` or `PUT` is recognised when followed by a space or by one last character. */
  lemma ShortVerbs(line: string, m: string)
    requires m in {"GET", "POST", "PUT"}
    ensures Verb(line) == m <==>
      |line| > |m| && Upper(line[..|m|]) == m && (|line| == |m| + 1 || line[|m|] == ' ')
  {
    VerbIs(line, m);
  }

  /** A full `DELETE` request line, target and version included, is answered as invalid. */
  lemma DeleteRequestLineIsInvalid()
    ensures Classify("DELETE /led HTTP/1.1\r\n").status == "NOT_OK"
  {
    DeleteNeedsSevenCharacters("DELETE /led HTTP/1.1\r\n");
    var v := Verb("DELETE /led HTTP/1.1\r\n");
    assert v != "GET" && v != "POST" && v != "PUT" by {
      var k := FindSpace("DELETE /led HTTP/1.1\r\n");
      assert k == -1;
      assert |v| == 21;
    }
  }

  /** A full `GET` request line is answered with the test page. */
  lemma GetRequestLine()
    ensures Classify("GET /led HTTP/1.1\r\n") == Response("OK", TestPage, None, true, [])
  {
    ShortVerbs("GET /led HTTP/1.1\r\n", "GET");
    assert Upper("GET") == "GET";
  }

  /** An empty request line is not turned away by the empty-request check but answered as invalid. */
  lemma EmptyLineIsInvalid()
    ensures !IsEmptyRequest("")
    ensures Classify("").status == "NOT_OK" && Classify("").body == InvalidPage
  {
    assert Verb("") == "";
  }

  /** The response depends on the request line only up to case. */
  lemma ClassifyIgnoresCase(line: string)
    ensures Classify(Upper(line)) == Classify(line)
  {
    VerbIgnoresCase(line);
  }

  // ---------------------------------------------------------------------------
  // The reply
  // ---------------------------------------------------------------------------

  /**
   What `dispatch_noun` writes for a request line: nothing when the
   empty-request check fires, otherwise the response's `send` followed by
   one more LF. Every request, the invalid ones included, is answered with
   the status line `HTTP/1.1 200 OK`, since the `NOT_OK` status contains
   "OK"; the client reads back code 200, the page `Classify` chose, and a
   closed connection.
   */
  function Respond(line: string): (w: Emission<char>)
    ensures w.raised.None?
    ensures |w.out| > |Line200| && w.out[..|Line200|] == Line200
    ensures w.out[|w.out| - 1] == '\n'
    ensures DraftHttpResponse.ReadReply(w.out[..|w.out| - 1])
            == Some(DraftHttpResponse.Reply(200, Classify(line).body, true))
  {
    if IsEmptyRequest(line) then Emission([], None)
    else
      var r := Classify(line);
      SentInFull(r);
      Emission(DraftHttpResponse.Send(r).out + "\n", DraftHttpResponse.Send(r).raised)
  }

  /** A valid response without mimetype and outside the `404` branch is sent in full and read back with code 200. */
  lemma SentInFull(r: Response)
    requires Valid(r) && r.mimetype.None? && r.status != "NOT_FOUND"
    ensures var w := DraftHttpResponse.Send(r).out + "\n";
      && DraftHttpResponse.Send(r).raised.None?
      && |w| > |Line200| && w[..|Line200|] == Line200
      && w[|w| - 1] == '\n'
      && DraftHttpResponse.ReadReply(w[..|w| - 1]) == Some(DraftHttpResponse.Reply(200, r.body, r.close))
  {
    DraftHttpResponse.ReadBack(r);
    StartsWithStatusLine(r);
    AppendLf(DraftHttpResponse.Send(r).out, Line200);
  }

  /** Writing one more LF keeps what was written before it as a prefix. */
  lemma AppendLf(s: string, p: string)
    requires |s| > |p| && s[..|p|] == p
    ensures var w := s + "\n";
      && |w| > |p| && w[..|p|] == p
      && w[|w| - 1] == '\n' && w[..|w| - 1] == s
  {
    var w := s + "\n";
    assert w[..|s|] == s;
    assert w[..|p|] == s[..|p|];
  }

  /** The text `send` writes begins with the status line it selected. */
  lemma StartsWithStatusLine(r: Response)
    requires Valid(r) && r.mimetype.None? && r.status != "NOT_FOUND"
    ensures |DraftHttpResponse.Send(r).out| > |Line200|
    ensures DraftHttpResponse.Send(r).out[..|Line200|] == Line200
  {
    StatusLineSelection(r.status);
    MimetypeFailureCases(r);
    FirstOfConcat(Writes(r).out);
  }

  /** A list of at least two lines, the second not empty, concatenates to more than its first line, which it starts with. */
  lemma FirstOfConcat(ws: seq<string>)
    requires |ws| >= 2 && |ws[1]| > 0
    ensures |Concat(ws)| > |ws[0]| && Concat(ws)[..|ws[0]|] == ws[0]
  {
    assert Concat(ws) == ws[0] + Concat(ws[1..]);
    assert Concat(ws[1..]) == ws[1] + Concat(ws[2..]);
  }
}
