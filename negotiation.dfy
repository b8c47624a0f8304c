/**
  Content negotiation of the storage accessor: the suffix test, the MIME type
  deduced from a file name, the gzip convention, and the HTTP/1.1 response head
  that `readFileToSocket` sends before the body.
*/
module Negotiation {
  import opened Format

  /** `strEndsWith`: does `fullString` end with `ending`? */
  function StrEndsWith(fullString: string, ending: string): (r: bool)
    ensures r <==> exists head :: fullString == head + ending
    ensures |ending| > |fullString| ==> !r
  {
    if |fullString| >= |ending| then
      var k := |fullString| - |ending|;
      assert fullString == fullString[..k] + fullString[k..];
      fullString[k..] == ending
    else
      false
  }

  const GzipSuffix := ".gz"
  const GzipHeader := "Content-Encoding: gzip\r\n"

  /** The MIME type deduced from a path; the first matching suffix wins. */
  function ContentType(path: string): (r: string)
    ensures r in {"text/html", "application/javascript", "text/css", "text/plain"}
    ensures r == "text/plain" ==> !StrEndsWith(path, ".html") && !StrEndsWith(path, ".js")
  {
    if StrEndsWith(path, ".html") then "text/html"
    else if StrEndsWith(path, ".js") then "application/javascript"
    else if StrEndsWith(path, ".css") then "text/css"
    else "text/plain"
  }

  /** No path ends with two of the recognised extensions. */
  lemma ExtensionsExclusive(path: string)
    ensures !(StrEndsWith(path, ".html") && StrEndsWith(path, ".js"))
    ensures !(StrEndsWith(path, ".html") && StrEndsWith(path, ".css"))
    ensures !(StrEndsWith(path, ".js") && StrEndsWith(path, ".css"))
  {
    var n := |path|;
    if StrEndsWith(path, ".html") {
      assert path[n - 1] == path[n - 5..][4] == 'l';
    }
    if StrEndsWith(path, ".js") {
      assert path[n - 1] == path[n - 3..][2] == 's';
      assert path[n - 3] == path[n - 3..][0] == '.';
    }
    if StrEndsWith(path, ".css") {
      assert path[n - 3] == path[n - 4..][1] == 'c';
    }
  }

  /**
    Because the extensions exclude each other, the order of the tests does not
    matter: each MIME type is chosen exactly when the path has its extension.
  */
  lemma ContentTypeByExtension(path: string)
    ensures ContentType(path) == "text/html" <==> StrEndsWith(path, ".html")
    ensures ContentType(path) == "application/javascript" <==> StrEndsWith(path, ".js")
    ensures ContentType(path) == "text/css" <==> StrEndsWith(path, ".css")
    ensures ContentType(path) == "text/plain" <==>
      !StrEndsWith(path, ".html") && !StrEndsWith(path, ".js") && !StrEndsWith(path, ".css")
  {
    ExtensionsExclusive(path);
  }

  lemma ContentTypeExamples()
    ensures ContentType("index.html") == "text/html"
    ensures ContentType("app.js") == "application/javascript"
    ensures ContentType("style.css") == "text/css"
    ensures ContentType("data.bin") == "text/plain"
  {
    assert "index.html"[5..] == ".html";
    assert "app.js"[3..] == ".js";
    assert "style.css"[5..] == ".css";
    assert "data.bin"[3..] != ".html" && "data.bin"[5..] != ".js" && "data.bin"[4..] != ".css";
  }

  /** The content type and the extra header line derived from the resolved path. */
  datatype Negotiated = Negotiated(contentType: string, extraHeaders: string)

  /** A `.gz` path announces gzip encoding and is typed by the name without `.gz`. */
  function Negotiate(resolvedPath: string): (r: Negotiated)
    ensures r.extraHeaders == GzipHeader <==> StrEndsWith(resolvedPath, GzipSuffix)
    ensures r.extraHeaders == "" <==> !StrEndsWith(resolvedPath, GzipSuffix)
    ensures r.contentType in {"text/html", "application/javascript", "text/css", "text/plain"}
  {
    if StrEndsWith(resolvedPath, GzipSuffix) then
      Negotiated(ContentType(resolvedPath[..|resolvedPath| - 3]), GzipHeader)
    else
      Negotiated(ContentType(resolvedPath), "")
  }

  /** The gzip variant of a path is served with the MIME type of the path itself. */
  lemma NegotiateGzipVariant(path: string)
    ensures Negotiate(path + GzipSuffix) == Negotiated(ContentType(path), GzipHeader)
  {
    var p := path + GzipSuffix;
    assert p[|p| - 3..] == GzipSuffix;
    assert p[..|p| - 3] == path;
  }

  /** A path without the `.gz` suffix gets no extra header. */
  lemma NegotiatePlain(path: string)
    requires !StrEndsWith(path, GzipSuffix)
    ensures Negotiate(path) == Negotiated(ContentType(path), "")
  {
  }

  /**
    The `mg_printf` format of the response head,
    "HTTP/1.1 %d OK\r\nContent-Type: %s\r\n%sContent-Length: %d\r\nConnection: close\r\n\r\n".
  */
  const HeaderFormat: seq<Directive> := [
    Lit("HTTP/1.1 "), SignedDecimal, Lit(" OK\r\nContent-Type: "), Verbatim, Lit("\r\n"),
    Verbatim, Lit("Content-Length: "), SignedDecimal, Lit(HeadEnd)]
  /** The last header line and the empty line that closes the head. */
  const HeadEnd := "\r\nConnection: close\r\n\r\n"
  const StatusCode := 200

  /** C's `(int)` conversion of a 32-bit `size_t`: values from 2^31 on wrap to negatives. */
  function Int32(n: nat): (i: int)
    ensures -0x8000_0000 <= i < 0x8000_0000
    ensures (n - i) % 0x1_0000_0000 == 0
  {
    var m := n % 0x1_0000_0000;
    if m < 0x8000_0000 then m else m - 0x1_0000_0000
  }

  /** The response head, as `mg_printf` renders it for the negotiated headers and size. */
  function ResponseHead(n: Negotiated, fileSize: nat): (r: string)
    ensures "HTTP/1.1 " <= r
    ensures |r| >= |HeadEnd| && r[|r| - |HeadEnd|..] == HeadEnd
  {
    SprintfStartsWith(HeaderFormat, HeadArgs(n, fileSize));
    SprintfEndsWith(HeaderFormat, HeadArgs(n, fileSize));
    Sprintf(HeaderFormat, HeadArgs(n, fileSize))
  }

  /** The four arguments of the head format: status, content type, extra headers and `(int)fileSize`. */
  function HeadArgs(n: Negotiated, fileSize: nat): seq<Arg>
  {
    [Int(StatusCode), Str(n.contentType), Str(n.extraHeaders), Int(Int32(fileSize))]
  }

  lemma StatusCodeDigits()
    ensures Decimal(StatusCode) == "200"
  {
    assert Digits(2, 10) == "2";
    assert Digits(20, 10) == "20";
  }

  /** Rendering the second half of the head's shape: a literal, `%s`, a literal, `%d`, a literal. */
  lemma {:induction false} HeadShapeTail(p2: string, p3: string, p4: string, x: string, len: int)
    ensures Sprintf([Lit(p2), Verbatim, Lit(p3), SignedDecimal, Lit(p4)], [Str(x), Int(len)]) ==
            p2 + (x + (p3 + (Decimal(len) + p4)))
  {
    var f := [Lit(p2), Verbatim, Lit(p3), SignedDecimal, Lit(p4)];
    var a := [Str(x), Int(len)];
    assert f[4..][1..] == [] && Sprintf(f[4..], []) == p4 + "";
    assert f[3..][1..] == f[4..] && Drop1(a[1..]) == [];
    assert Sprintf(f[3..], a[1..]) == Decimal(len) + p4;
    assert f[2..][1..] == f[3..];
    assert Sprintf(f[2..], a[1..]) == p3 + (Decimal(len) + p4);
    assert f[1..][1..] == f[2..] && Drop1(a) == a[1..];
    assert Sprintf(f[1..], a) == x + (p3 + (Decimal(len) + p4));
  }

  /** Rendering a format of the head's shape, for any literal runs and arguments. */
  lemma {:induction false} HeadShape(p0: string, p1: string, p2: string, p3: string, p4: string,
                                     code: int, t: string, x: string, len: int)
    ensures Sprintf([Lit(p0), SignedDecimal, Lit(p1), Verbatim, Lit(p2), Verbatim, Lit(p3), SignedDecimal, Lit(p4)],
                    [Int(code), Str(t), Str(x), Int(len)]) ==
            p0 + (Decimal(code) + (p1 + (t + (p2 + (x + (p3 + (Decimal(len) + p4)))))))
  {
    var f := [Lit(p0), SignedDecimal, Lit(p1), Verbatim, Lit(p2), Verbatim, Lit(p3), SignedDecimal, Lit(p4)];
    var a := [Int(code), Str(t), Str(x), Int(len)];
    HeadShapeTail(p2, p3, p4, x, len);
    assert f[4..] == [Lit(p2), Verbatim, Lit(p3), SignedDecimal, Lit(p4)] && a[2..] == [Str(x), Int(len)];
    assert f[3..][1..] == f[4..] && Drop1(a[1..]) == a[2..];
    assert Sprintf(f[3..], a[1..]) == t + (p2 + (x + (p3 + (Decimal(len) + p4))));
    assert f[2..][1..] == f[3..];
    assert Sprintf(f[2..], a[1..]) == p1 + (t + (p2 + (x + (p3 + (Decimal(len) + p4)))));
    assert f[1..][1..] == f[2..] && Drop1(a) == a[1..];
    assert Sprintf(f[1..], a) == Decimal(code) + (p1 + (t + (p2 + (x + (p3 + (Decimal(len) + p4))))));
  }

  lemma ConcatRightNested(s0: string, s1: string, s2: string, s3: string, s4: string,
                          s5: string, s6: string, s7: string, s8: string)
    ensures s0 + s1 + s2 + s3 + s4 + s5 + s6 + s7 + s8 ==
            s0 + (s1 + (s2 + (s3 + (s4 + (s5 + (s6 + (s7 + s8)))))))
  {
  }

  /**
    The head is the status line of RFC 9112 section 4, the Content-Type,
    the optional Content-Encoding, the Content-Length (RFC 9110 sections 8.3,
    8.4 and 8.6) and Connection: close, closed by an empty line.
  */
  lemma ResponseHeadLayout(n: Negotiated, fileSize: nat)
    ensures ResponseHead(n, fileSize) ==
      "HTTP/1.1 " + "200" + " OK\r\nContent-Type: " + n.contentType + "\r\n" + n.extraHeaders +
      "Content-Length: " + Decimal(Int32(fileSize)) + "\r\nConnection: close\r\n\r\n"
  {
    var len := Decimal(Int32(fileSize));
    StatusCodeDigits();
    ConcatRightNested("HTTP/1.1 ", "200", " OK\r\nContent-Type: ", n.contentType, "\r\n", n.extraHeaders,
                      "Content-Length: ", len, "\r\nConnection: close\r\n\r\n");
    HeadShape("HTTP/1.1 ", " OK\r\nContent-Type: ", "\r\n", "Content-Length: ", "\r\nConnection: close\r\n\r\n",
              StatusCode, n.contentType, n.extraHeaders, Int32(fileSize));
  }

  /** Below 2^31 bytes the Content-Length field holds the size's exact decimal digits. */
  lemma ContentLengthExact(fileSize: nat)
    requires fileSize < 0x8000_0000
    ensures Decimal(Int32(fileSize)) == Digits(fileSize, 10)
    ensures ParseDigits(Decimal(Int32(fileSize)), 10) == fileSize
  {
    assert Int32(fileSize) == fileSize;
    DigitsRoundTrip(fileSize, 10);
  }

  /** From 2^31 to 2^32 - 1 bytes the `(int)` cast makes the Content-Length negative. */
  lemma ContentLengthWrapsNegative(fileSize: nat)
    requires 0x8000_0000 <= fileSize < 0x1_0000_0000
    ensures Decimal(Int32(fileSize))[0] == '-'
  {
  }
}
