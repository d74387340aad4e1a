/**
  The HTTP sniffer and User-Agent rewriter of the proxy (src/http.rs): a
  prefix test for HTTP request lines, a splice that replaces the value of the
  first `User-Agent: ` header, and the case-insensitive whitelist of client
  strings that are left alone.
 */
module Http {
  import opened Wrappers
  import opened Bytes

  const Space: byte := 32
  const CR: byte := 13

  /** The header name searched for, matched case-sensitively, with its colon and space. */
  const UserAgentHeader: seq<byte> := Ascii("User-Agent: ")

  /** Longest existing header value that is still rewritten. */
  const MaxUserAgentLen: nat := 1024

  /* ---------------------------------------------------------------------- */
  /* Searching (memmem::find and memchr::memchr)                             */
  /* ---------------------------------------------------------------------- */

  /** `needle` occurs in `hay` starting at position `p`. */
  predicate OccursAt(hay: seq<byte>, needle: seq<byte>, p: nat) {
    p + |needle| <= |hay| && hay[p..p + |needle|] == needle
  }

  /** First position at or after `from` where `needle` occurs. */
  function FindFrom(hay: seq<byte>, needle: seq<byte>, from: nat): (r: Option<nat>)
    requires from <= |hay|
    ensures r.Some? ==> from <= r.value && OccursAt(hay, needle, r.value)
    ensures r.Some? ==> forall q: nat :: from <= q < r.value ==> !OccursAt(hay, needle, q)
    ensures r.None? ==> forall q: nat :: from <= q ==> !OccursAt(hay, needle, q)
    decreases |hay| - from
  {
    if from + |needle| > |hay| then None
    else if OccursAt(hay, needle, from) then Some(from)
    else FindFrom(hay, needle, from + 1)
  }

  /** `memmem::find`: the position of the first occurrence of `needle` in `hay`. */
  function Find(hay: seq<byte>, needle: seq<byte>): (r: Option<nat>)
    ensures r.Some? ==> OccursAt(hay, needle, r.value)
    ensures r.Some? ==> forall q: nat :: q < r.value ==> !OccursAt(hay, needle, q)
    ensures r.None? <==> forall q: nat :: !OccursAt(hay, needle, q)
  {
    FindFrom(hay, needle, 0)
  }

  /** First index at or after `from` holding the byte `b`. */
  function FindByteFrom(s: seq<byte>, b: byte, from: nat): (r: Option<nat>)
    requires from <= |s|
    ensures r.Some? ==> from <= r.value < |s| && s[r.value] == b
    ensures r.Some? ==> forall k :: from <= k < r.value ==> s[k] != b
    ensures r.None? ==> forall k :: from <= k < |s| ==> s[k] != b
    decreases |s| - from
  {
    if from == |s| then None
    else if s[from] == b then Some(from)
    else FindByteFrom(s, b, from + 1)
  }

  /** `memchr::memchr`: the index of the first byte `b` in `s`. */
  function FindByte(s: seq<byte>, b: byte): (r: Option<nat>)
    ensures r.Some? ==> r.value < |s| && s[r.value] == b
    ensures r.Some? ==> forall k :: 0 <= k < r.value ==> s[k] != b
    ensures r.None? <==> forall k :: 0 <= k < |s| ==> s[k] != b
  {
    FindByteFrom(s, b, 0)
  }

  /* ---------------------------------------------------------------------- */
  /* is_http_request                                                         */
  /* ---------------------------------------------------------------------- */

  /** `buf` begins with `prefix` (`<[u8]>::starts_with`). */
  predicate StartsWith(buf: seq<byte>, prefix: seq<byte>) {
    |prefix| <= |buf| && buf[..|prefix|] == prefix
  }

  /** `starts_with` compares byte by byte: the prefix fits and agrees with the buffer at every position. */
  lemma StartsWithBytewise(buf: seq<byte>, prefix: seq<byte>)
    ensures StartsWith(buf, prefix) <==>
      |prefix| <= |buf| && forall i :: 0 <= i < |prefix| ==> buf[i] == prefix[i]
  {
  }

  /** The buffer begins with one of the seven method tokens, each with its trailing space. */
  function IsHttpRequest(buf: seq<byte>): (r: bool)
    ensures r ==> |buf| >= 4
  {
    StartsWith(buf, Ascii("GET ")) ||
    StartsWith(buf, Ascii("POST ")) ||
    StartsWith(buf, Ascii("HEAD ")) ||
    StartsWith(buf, Ascii("PUT ")) ||
    StartsWith(buf, Ascii("DELETE ")) ||
    StartsWith(buf, Ascii("OPTIONS ")) ||
    StartsWith(buf, Ascii("CONNECT "))
  }

  /** A byte that differs from the token at position `i` rules the token out. */
  lemma MismatchAt(buf: seq<byte>, token: seq<byte>, i: nat)
    requires i < |token| && i < |buf| && buf[i] != token[i]
    ensures !StartsWith(buf, token)
  {
    if |token| <= |buf| {
      assert buf[..|token|][i] != token[i];
    }
  }

  /** A request line of a recognised method is classified as HTTP; three bytes never are. */
  lemma GetIsHttpRequest()
    ensures IsHttpRequest(Ascii("GET / HTTP/1.1"))
    ensures !IsHttpRequest(Ascii("GET"))
  {
    assert Ascii("GET / HTTP/1.1")[..4] == Ascii("GET ");
  }

  /** Method tokens are case-sensitive. */
  lemma LowerCaseIsNotHttpRequest()
    ensures !IsHttpRequest(Ascii("get / HTTP/1.1"))
  {
    var b := Ascii("get / HTTP/1.1");
    MismatchAt(b, Ascii("GET "), 0);
    MismatchAt(b, Ascii("POST "), 0);
    MismatchAt(b, Ascii("HEAD "), 0);
    MismatchAt(b, Ascii("PUT "), 0);
    MismatchAt(b, Ascii("DELETE "), 0);
    MismatchAt(b, Ascii("OPTIONS "), 0);
    MismatchAt(b, Ascii("CONNECT "), 0);
  }

  /** PATCH and TRACE are not among the method tokens. */
  lemma PatchAndTraceAreNotHttpRequests()
    ensures !IsHttpRequest(Ascii("PATCH / HTTP/1.1"))
    ensures !IsHttpRequest(Ascii("TRACE / HTTP/1.1"))
  {
    var p, t := Ascii("PATCH / HTTP/1.1"), Ascii("TRACE / HTTP/1.1");
    MismatchAt(p, Ascii("GET "), 0);
    MismatchAt(p, Ascii("POST "), 1);
    MismatchAt(p, Ascii("HEAD "), 0);
    MismatchAt(p, Ascii("PUT "), 1);
    MismatchAt(p, Ascii("DELETE "), 0);
    MismatchAt(p, Ascii("OPTIONS "), 0);
    MismatchAt(p, Ascii("CONNECT "), 0);
    MismatchAt(t, Ascii("GET "), 0);
    MismatchAt(t, Ascii("POST "), 0);
    MismatchAt(t, Ascii("HEAD "), 0);
    MismatchAt(t, Ascii("PUT "), 0);
    MismatchAt(t, Ascii("DELETE "), 0);
    MismatchAt(t, Ascii("OPTIONS "), 0);
    MismatchAt(t, Ascii("CONNECT "), 0);
  }

  /** The request methods recognised, without their space. */
  const MethodNames: seq<seq<byte>> :=
    [Ascii("GET"), Ascii("POST"), Ascii("HEAD"), Ascii("PUT"),
     Ascii("DELETE"), Ascii("OPTIONS"), Ascii("CONNECT")]

  /** The bytes before the first space of the buffer, if it holds a space at all. */
  function FirstWord(buf: seq<byte>): (w: Option<seq<byte>>)
    ensures w.Some? ==> |w.value| < |buf| && buf[..|w.value|] == w.value && buf[|w.value|] == Space
    ensures w.Some? ==> Space !in w.value
    ensures w.None? <==> Space !in buf
  {
    match FindByte(buf, Space)
    case None => None
    case Some(k) =>
      assert forall j :: 0 <= j < k ==> buf[..k][j] == buf[j];
      Some(buf[..k])
  }

  /** A word without spaces is the first word of `buf` exactly when `buf` starts with the word and a space. */
  lemma FirstWordOfToken(buf: seq<byte>, name: seq<byte>)
    requires forall j :: 0 <= j < |name| ==> name[j] != Space
    ensures FirstWord(buf) == Some(name) <==> StartsWith(buf, name + [Space])
  {
    if StartsWith(buf, name + [Space]) {
      var n := |name|;
      assert buf[n] == Space by { assert (name + [Space])[n] == Space; }
      forall j | 0 <= j < n ensures buf[j] != Space {
        assert buf[j] == (name + [Space])[j] == name[j];
      }
      var k := FindByte(buf, Space);
      assert k == Some(n);
      assert buf[..n] == name by { assert buf[..n] == buf[..n + 1][..n]; }
    }
    if FirstWord(buf) == Some(name) {
      var n := |name|;
      assert buf[..n + 1] == buf[..n] + [buf[n]];
    }
  }

  /**
    An independent reading of the classification: a buffer is an HTTP
    request exactly when its first space-terminated word is one of the
    seven method names.
   */
  lemma IsHttpRequestIffMethodWord(buf: seq<byte>)
    ensures IsHttpRequest(buf) <==>
      exists i :: 0 <= i < |MethodNames| && FirstWord(buf) == Some(MethodNames[i])
  {
    forall i | 0 <= i < |MethodNames|
      ensures forall j :: 0 <= j < |MethodNames[i]| ==> MethodNames[i][j] != Space
    {
    }
    assert Ascii("GET ") == MethodNames[0] + [Space];
    assert Ascii("POST ") == MethodNames[1] + [Space];
    assert Ascii("HEAD ") == MethodNames[2] + [Space];
    assert Ascii("PUT ") == MethodNames[3] + [Space];
    assert Ascii("DELETE ") == MethodNames[4] + [Space];
    assert Ascii("OPTIONS ") == MethodNames[5] + [Space];
    assert Ascii("CONNECT ") == MethodNames[6] + [Space];
    FirstWordOfToken(buf, MethodNames[0]);
    FirstWordOfToken(buf, MethodNames[1]);
    FirstWordOfToken(buf, MethodNames[2]);
    FirstWordOfToken(buf, MethodNames[3]);
    FirstWordOfToken(buf, MethodNames[4]);
    FirstWordOfToken(buf, MethodNames[5]);
    FirstWordOfToken(buf, MethodNames[6]);
  }

  /* ---------------------------------------------------------------------- */
  /* check_is_in_whitelist                                                   */
  /* ---------------------------------------------------------------------- */

  /** Client identifiers whose User-Agent is never rewritten. */
  const Whitelist: seq<seq<byte>> :=
    [Ascii("MicroMessenger Client"), Ascii("ByteDancePcdn"),
     Ascii("Go-http-client/1.1"), Ascii("Bilibili Freedoooooom/MarkII")]

  /** `u8::to_ascii_lowercase`: maps `A`..`Z` to `a`..`z` and leaves every other byte alone. */
  function ToAsciiLowercase(b: byte): (r: byte)
    ensures !(65 <= r <= 90)
    ensures !(65 <= b <= 90) ==> r == b
    ensures (97 <= r <= 122) <==> (65 <= b <= 90 || 97 <= b <= 122)
  {
    if 65 <= b <= 90 then b + 32 else b
  }

  /** `<[u8]>::eq_ignore_ascii_case`: same length and equal byte by byte after lower-casing. */
  predicate EqIgnoreAsciiCase(a: seq<byte>, b: seq<byte>)
    ensures EqIgnoreAsciiCase(a, b) ==> |a| == |b|
    ensures a == b ==> EqIgnoreAsciiCase(a, b)
  {
    |a| == |b| && forall i :: 0 <= i < |a| ==> ToAsciiLowercase(a[i]) == ToAsciiLowercase(b[i])
  }

  /** Entry `i` of the whitelist matches `v` as a whole value. */
  predicate MatchesEntry(v: seq<byte>, i: nat)
    requires i < |Whitelist|
  {
    |Whitelist[i]| == |v| && EqIgnoreAsciiCase(v, Whitelist[i])
  }

  /** `v` is, up to ASCII case, one of the whitelisted identifiers. */
  predicate InWhitelist(v: seq<byte>) {
    exists i: nat :: i < |Whitelist| && MatchesEntry(v, i)
  }

  /** Walks the whitelist in order and stops at the first entry that matches `v` as a whole. */
  method CheckIsInWhitelist(v: seq<byte>) returns (listed: bool)
    ensures listed <==> InWhitelist(v)
  {
    for i := 0 to |Whitelist|
      invariant forall j: nat :: j < i ==> !MatchesEntry(v, j)
    {
      var item := Whitelist[i];
      if |item| == |v| && EqIgnoreAsciiCase(v, item) {
        assert MatchesEntry(v, i);
        return true;
      }
    }
    return false;
  }

  /** Lower-casing makes `EqIgnoreAsciiCase` an equivalence, so it can be chained. */
  lemma EqIgnoreAsciiCaseTransitive(a: seq<byte>, b: seq<byte>, c: seq<byte>)
    requires EqIgnoreAsciiCase(a, b) && EqIgnoreAsciiCase(b, c)
    ensures EqIgnoreAsciiCase(a, c) && EqIgnoreAsciiCase(c, a)
  {
  }

  /** Whether a value is whitelisted depends only on its ASCII-lower-cased form. */
  lemma WhitelistIgnoresCase(v: seq<byte>, w: seq<byte>)
    requires EqIgnoreAsciiCase(v, w)
    ensures InWhitelist(v) <==> InWhitelist(w)
  {
    if InWhitelist(v) {
      var i: nat :| i < |Whitelist| && MatchesEntry(v, i);
      EqIgnoreAsciiCaseTransitive(w, v, Whitelist[i]);
      assert MatchesEntry(w, i);
    }
    if InWhitelist(w) {
      var i: nat :| i < |Whitelist| && MatchesEntry(w, i);
      EqIgnoreAsciiCaseTransitive(v, w, Whitelist[i]);
      assert MatchesEntry(v, i);
    }
  }

  /**
    The match is on the whole value: only values of exactly the length of an
    entry can be whitelisted, so a value that merely contains an entry (for
    instance an entry followed by a version suffix) is not.
   */
  lemma WhitelistWholeValue(v: seq<byte>)
    ensures InWhitelist(v) ==> |v| == 21 || |v| == 13 || |v| == 18 || |v| == 28
    ensures (exists i: nat :: i < |Whitelist| && Whitelist[i] == v) ==> InWhitelist(v)
  {
    if exists i: nat :: i < |Whitelist| && Whitelist[i] == v {
      var i: nat :| i < |Whitelist| && Whitelist[i] == v;
      assert MatchesEntry(v, i);
    }
  }

  /** A whitelisted identifier in other letter case still matches. */
  lemma WhitelistAcceptsOtherCase()
    ensures InWhitelist(Ascii("bytedancepcdn"))
  {
    var v, w := Ascii("bytedancepcdn"), Ascii("ByteDancePcdn");
    assert Whitelist[1] == w;
    forall i | 0 <= i < |v| ensures ToAsciiLowercase(v[i]) == ToAsciiLowercase(w[i]) {
    }
    assert MatchesEntry(v, 1);
  }

  /** A value that only starts with an entry is not listed. */
  lemma WhitelistRejectsLonger()
    ensures !InWhitelist(Ascii("MicroMessenger Client/8.0"))
  {
    WhitelistWholeValue(Ascii("MicroMessenger Client/8.0"));
  }

  /* ---------------------------------------------------------------------- */
  /* modify_user_agent                                                       */
  /* ---------------------------------------------------------------------- */

  /** What `modify_user_agent` decides about a buffer, with the value span it found. */
  datatype Verdict =
    | NoHeader                          // `User-Agent: ` does not occur
    | NoTerminator(start: nat)          // no `\r` at or after the value start
    | Oversized(start: nat, end: nat)   // value longer than MaxUserAgentLen
    | Whitelisted(start: nat, end: nat) // value is a whitelisted client identifier
    | Replace(start: nat, end: nat)     // value span [start, end) is to be replaced
  {
    predicate HasValue() {
      Oversized? || Whitelisted? || Replace?
    }
  }

  /** [start, end) is a header value: it runs up to, not including, the first `\r` at or after `start`. */
  predicate ValueSpan(buf: seq<byte>, start: nat, end: nat) {
    start <= end < |buf| && buf[end] == CR &&
    forall k :: start <= k < end ==> buf[k] != CR
  }

  /** The first occurrence of `User-Agent: ` in `buf` ends at `start`. */
  predicate FirstHeaderEndsAt(buf: seq<byte>, start: nat) {
    start >= |UserAgentHeader| &&
    OccursAt(buf, UserAgentHeader, start - |UserAgentHeader|) &&
    forall q: nat :: q < start - |UserAgentHeader| ==> !OccursAt(buf, UserAgentHeader, q)
  }

  /** The decision of `modify_user_agent`: where the value lies and what is done with it. */
  function Locate(buf: seq<byte>): Verdict
  {
    match Find(buf, UserAgentHeader)
    case None => NoHeader
    case Some(pos) =>
      var start := pos + |UserAgentHeader|;
      match FindByte(buf[start..], CR)
      case None => NoTerminator(start)
      case Some(offset) =>
        Classify(start, start + offset, buf[start..start + offset])
  }

  /** The verdict on a located value span [start, end) holding `value`. */
  function Classify(start: nat, end: nat, value: seq<byte>): Verdict
    requires start <= end
  {
    if end - start > MaxUserAgentLen then Oversized(start, end)
    else if InWhitelist(value) then Whitelisted(start, end)
    else Replace(start, end)
  }

  /** The verdict names the first header occurrence, and `NoHeader` exactly when there is none. */
  lemma LocateHeader(buf: seq<byte>)
    ensures Locate(buf).NoHeader? <==> forall p: nat :: !OccursAt(buf, UserAgentHeader, p)
    ensures !Locate(buf).NoHeader? ==> FirstHeaderEndsAt(buf, Locate(buf).start)
  {
    match Find(buf, UserAgentHeader)
    case None =>
    case Some(pos) =>
      assert Locate(buf).start - |UserAgentHeader| == pos;
  }

  /** `NoTerminator` exactly when no `\r` follows the header. */
  lemma LocateTerminator(buf: seq<byte>)
    ensures Locate(buf).NoTerminator? <==>
      !Locate(buf).NoHeader? && forall k :: Locate(buf).start <= k < |buf| ==> buf[k] != CR
  {
    match Find(buf, UserAgentHeader)
    case None =>
    case Some(pos) =>
      var start := pos + |UserAgentHeader|;
      var rest := buf[start..];
      match FindByte(rest, CR)
      case None =>
        forall k | start <= k < |buf| ensures buf[k] != CR {
          assert rest[k - start] == buf[k];
        }
      case Some(offset) =>
        assert rest[offset] == buf[start + offset];
  }

  /** A located value runs from the end of the header up to the first `\r` after it. */
  lemma LocateValueSpan(buf: seq<byte>)
    ensures Locate(buf).HasValue() ==> ValueSpan(buf, Locate(buf).start, Locate(buf).end)
  {
    match Find(buf, UserAgentHeader)
    case None =>
    case Some(pos) =>
      var start := pos + |UserAgentHeader|;
      var rest := buf[start..];
      match FindByte(rest, CR)
      case None =>
      case Some(offset) =>
        var end := start + offset;
        assert rest[offset] == buf[end];
        forall k | start <= k < end ensures buf[k] != CR {
          assert rest[k - start] == buf[k];
        }
        assert Locate(buf).start == start && Locate(buf).end == end;
  }

  /** A located value is left alone when over-long or whitelisted, and replaced otherwise. */
  lemma LocateClassifies(buf: seq<byte>)
    ensures Locate(buf).Oversized? <==>
      Locate(buf).HasValue() && Locate(buf).end - Locate(buf).start > MaxUserAgentLen
    ensures Locate(buf).Whitelisted? <==>
      Locate(buf).HasValue() && Locate(buf).end - Locate(buf).start <= MaxUserAgentLen &&
      InWhitelist(buf[Locate(buf).start..Locate(buf).end])
  {
  }

  /** The buffer after `modify_user_agent(buf, ua)`: the located value spliced out and `ua` spliced in. */
  function Rewrite(buf: seq<byte>, ua: seq<byte>): seq<byte> {
    match Locate(buf)
    case Replace(start, end) => buf[..start] + ua + buf[end..]
    case _ => buf
  }

  /**
    The new buffer of `modify_user_agent`: allocated with room for the result
    and filled by three `extend_from_slice` calls.
   */
  method Splice(data: seq<byte>, start: nat, end: nat, userAgent: seq<byte>) returns (newBuf: ByteBuffer)
    requires start <= end <= |data|
    ensures fresh(newBuf)
    ensures newBuf.data == data[..start] + userAgent + data[end..]
  {
    newBuf := new ByteBuffer.WithCapacity(|data| - (end - start) + |userAgent|);
    newBuf.ExtendFromSlice(data[..start]);
    newBuf.ExtendFromSlice(userAgent);
    newBuf.ExtendFromSlice(data[end..]);
  }

  /**
    `modify_user_agent`: finds the value of the first `User-Agent: ` header,
    gives up when a step fails, and otherwise builds the spliced buffer with
    three `extend_from_slice` calls and installs it in place of `buf`.
   */
  method ModifyUserAgent(buf: ByteBuffer, userAgent: seq<byte>)
    modifies buf
    ensures buf.data == Rewrite(old(buf.data), userAgent)
  {
    ghost var before := buf.data;
    var found := Find(buf.data, UserAgentHeader);
    if found.None? {
      assert Locate(before).NoHeader?;
      return;
    }
    var start := found.value + |UserAgentHeader|;
    var terminator := FindByte(buf.data[start..], CR);
    if terminator.None? {
      assert Locate(before).NoTerminator?;
      return;
    }
    var end := start + terminator.value;
    // `modify_user_agent` re-checks `end > buf.len()` here; the search above already bounds it.
    assert end < |buf.data|;
    var oldLen := end - start;
    if oldLen > MaxUserAgentLen {
      assert Locate(before).Oversized?;
      return;
    }
    var listed := CheckIsInWhitelist(buf.data[start..end]);
    if listed {
      assert Locate(before).Whitelisted?;
      return;
    }
    assert Locate(before) == Replace(start, end);
    var newBuf := Splice(buf.data, start, end, userAgent);
    buf.Assign(newBuf);
  }

  /* ---------------------------------------------------------------------- */
  /* Properties of the rewrite                                               */
  /* ---------------------------------------------------------------------- */

  /**
    The three cases that leave the buffer untouched: no header, no `\r`
    after the header, a value over 1024 bytes, and a whitelisted value.
   */
  lemma RewriteSkipped(buf: seq<byte>, ua: seq<byte>)
    ensures (forall p: nat :: !OccursAt(buf, UserAgentHeader, p)) ==> Rewrite(buf, ua) == buf
    ensures Locate(buf).NoTerminator? ==> Rewrite(buf, ua) == buf
    ensures Locate(buf).HasValue() && Locate(buf).end - Locate(buf).start > MaxUserAgentLen ==>
      Rewrite(buf, ua) == buf
    ensures Locate(buf).HasValue() && InWhitelist(buf[Locate(buf).start..Locate(buf).end]) ==>
      Rewrite(buf, ua) == buf
  {
    LocateHeader(buf);
    LocateClassifies(buf);
  }

  /**
    A rewritten buffer is the old prefix, then `ua`, then the old suffix from
    the `\r` on; its length changes by the difference of the value lengths.
   */
  lemma RewriteSplice(buf: seq<byte>, ua: seq<byte>)
    requires Locate(buf).Replace?
    ensures var start, end, r := Locate(buf).start, Locate(buf).end, Rewrite(buf, ua);
      && |r| == |buf| - (end - start) + |ua|
      && r[..start] == buf[..start]
      && r[start..start + |ua|] == ua
      && r[start + |ua|..] == buf[end..]
      && r[start + |ua|] == CR
  {
    LocateValueSpan(buf);
  }

  /** Only the first eight bytes (the longest token, `OPTIONS ` or `CONNECT `) decide the classification. */
  lemma IsHttpRequestOnPrefix(a: seq<byte>, b: seq<byte>, n: nat)
    requires 8 <= n <= |a| && n <= |b| && a[..n] == b[..n]
    ensures IsHttpRequest(a) == IsHttpRequest(b)
  {
    forall m | 0 <= m <= 8 ensures a[..m] == b[..m] {
      assert a[..m] == a[..n][..m];
      assert b[..m] == b[..n][..m];
    }
  }

  /** Rewriting the User-Agent never changes whether the buffer reads as an HTTP request. */
  lemma RewriteKeepsHttpVerdict(buf: seq<byte>, ua: seq<byte>)
    ensures IsHttpRequest(Rewrite(buf, ua)) == IsHttpRequest(buf)
  {
    if Locate(buf).Replace? {
      RewriteSplice(buf, ua);
      IsHttpRequestOnPrefix(Rewrite(buf, ua), buf, Locate(buf).start);
    }
  }

  /** The first header occurrence ending at `start` lies in the first `start` bytes, so a buffer sharing them keeps it. */
  lemma FirstHeaderOnPrefix(a: seq<byte>, b: seq<byte>, start: nat)
    requires FirstHeaderEndsAt(a, start)
    requires start <= |b| && a[..start] == b[..start]
    ensures FirstHeaderEndsAt(b, start)
  {
    var n := |UserAgentHeader|;
    var pos := start - n;
    assert OccursAt(b, UserAgentHeader, pos) by {
      assert b[pos..start] == b[..start][pos..] == a[..start][pos..] == a[pos..start];
    }
    forall q: nat | q < pos ensures !OccursAt(b, UserAgentHeader, q) {
      assert q + n <= start;
      assert !OccursAt(a, UserAgentHeader, q);
      assert b[q..q + n] == b[..start][q..q + n] == a[..start][q..q + n] == a[q..q + n];
    }
  }

  /** Two first-occurrence positions of the header are the same position. */
  lemma FirstHeaderUnique(buf: seq<byte>, s1: nat, s2: nat)
    requires FirstHeaderEndsAt(buf, s1) && FirstHeaderEndsAt(buf, s2)
    ensures s1 == s2
  {
  }

  /** `ua` followed by a `\r` is a whole header value when `ua` holds no `\r`. */
  lemma ValueSpanOfInserted(r: seq<byte>, start: nat, ua: seq<byte>)
    requires start + |ua| < |r| && r[start..start + |ua|] == ua && r[start + |ua|] == CR
    requires forall k :: 0 <= k < |ua| ==> ua[k] != CR
    ensures ValueSpan(r, start, start + |ua|)
  {
    forall k | start <= k < start + |ua| ensures r[k] != CR {
      assert r[k] == r[start..start + |ua|][k - start];
    }
  }

  /** After a rewrite with a value free of `\r`, the value span of the result is exactly `ua`. */
  lemma RewriteLocatesNewValue(buf: seq<byte>, ua: seq<byte>)
    requires Locate(buf).Replace?
    requires forall k :: 0 <= k < |ua| ==> ua[k] != CR
    ensures Locate(Rewrite(buf, ua)).HasValue()
    ensures Locate(Rewrite(buf, ua)).start == Locate(buf).start
    ensures Locate(Rewrite(buf, ua)).end == Locate(buf).start + |ua|
  {
    var start, r := Locate(buf).start, Rewrite(buf, ua);
    LocateHeader(buf);
    RewriteSplice(buf, ua);
    FirstHeaderOnPrefix(buf, r, start);
    ValueSpanOfInserted(r, start, ua);
    var w := Locate(r);
    LocateHeader(r);
    assert !w.NoHeader? by {
      assert OccursAt(r, UserAgentHeader, start - |UserAgentHeader|);
    }
    FirstHeaderUnique(r, w.start, start);
    LocateTerminator(r);
    assert !w.NoTerminator? by {
      assert r[start + |ua|] == CR;
    }
    LocateValueSpan(r);
    ValueSpanUnique(r, start, w.end, start + |ua|);
  }

  /** A value span is fixed by its start: it ends at the first `\r`. */
  lemma ValueSpanUnique(buf: seq<byte>, start: nat, e1: nat, e2: nat)
    requires ValueSpan(buf, start, e1) && ValueSpan(buf, start, e2)
    ensures e1 == e2
  {
  }

  /** Splicing in the very bytes that are already there changes nothing. */
  lemma SpliceSame(r: seq<byte>, start: nat, ua: seq<byte>)
    requires start + |ua| <= |r| && r[start..start + |ua|] == ua
    ensures r[..start] + ua + r[start + |ua|..] == r
  {
    assert r == r[..start] + r[start..start + |ua|] + r[start + |ua|..];
  }

  /** A buffer whose located value already is `ua` is left as it is by the rewrite with `ua`. */
  lemma RewriteFixed(r: seq<byte>, ua: seq<byte>, start: nat)
    requires Locate(r).HasValue() && Locate(r).start == start && Locate(r).end == start + |ua|
    requires start + |ua| <= |r| && r[start..start + |ua|] == ua
    ensures Rewrite(r, ua) == r
  {
    if Locate(r).Replace? {
      SpliceSame(r, start, ua);
    }
  }

  /**
    Rewriting twice with a value that holds no `\r` gives the buffer of
    rewriting once: the first header stays where it was, and the old `\r`
    now ends the new value, so the second pass replaces `ua` by itself or
    skips.
   */
  lemma RewriteIdempotent(buf: seq<byte>, ua: seq<byte>)
    requires forall k :: 0 <= k < |ua| ==> ua[k] != CR
    ensures Rewrite(Rewrite(buf, ua), ua) == Rewrite(buf, ua)
  {
    if Locate(buf).Replace? {
      RewriteLocatesNewValue(buf, ua);
      RewriteSplice(buf, ua);
      RewriteFixed(Rewrite(buf, ua), ua, Locate(buf).start);
    }
  }
}
