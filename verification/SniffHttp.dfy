/** internal/sniff/http.go: the Host header of an HTTP/1 request head. */
module SniffHttp {
  import opened Bytes
  import opened Domains
  import opened SniffTls

  const SPACE: byte := 32
  const COLON: byte := 58
  const CR: byte := 13
  const LF: byte := 10

  const UNNAMED := Result([], Http, true, false)

  /** `bytes.IndexByte`. */
  function IndexByte(s: Text, b: byte): (i: int)
    ensures -1 <= i < |s|
    ensures i >= 0 ==> s[i] == b
    ensures forall k :: 0 <= k < (if i < 0 then |s| else i) ==> s[k] != b
  {
    if s == [] then -1
    else if s[0] == b then 0
    else
      var rest := IndexByte(s[1..], b);
      assert forall k :: 1 <= k < |s| ==> s[k] == s[1..][k - 1];
      if rest < 0 then -1 else rest + 1
  }

  predicate BlankLineAt(s: Text, i: nat)
  {
    i + 4 <= |s| && s[i] == CR && s[i + 1] == LF && s[i + 2] == CR && s[i + 3] == LF
  }

  /** `bytes.Index(s, "\\r\\n\\r\\n")`. */
  function IndexBlankLine(s: Text): (i: int)
    ensures -1 <= i
    ensures i >= 0 ==> BlankLineAt(s, i)
    ensures forall k: nat :: (i < 0 || k < i) ==> !BlankLineAt(s, k)
  {
    if |s| < 4 then -1
    else if BlankLineAt(s, 0) then 0
    else
      var rest := IndexBlankLine(s[1..]);
      assert forall k: nat :: k >= 1 ==> (BlankLineAt(s, k) <==> BlankLineAt(s[1..], k - 1));
      if rest < 0 then -1 else rest + 1
  }

  /** `bytes.Split(s, "\\r\\n")`. */
  function SplitLines(s: Text): (lines: seq<Text>)
    ensures |lines| >= 1
  {
    if s == [] then [[]]
    else if |s| >= 2 && s[0] == CR && s[1] == LF then [[]] + SplitLines(s[2..])
    else
      var rest := SplitLines(s[1..]);
      [[s[0]] + rest[0]] + rest[1..]
  }

  predicate IsMethodChar(b: byte)
  {
    65 <= b <= 90 || 97 <= b <= 122
  }

  /** `strings.EqualFold(name, "host")`: the long s, U+017F, also folds to s. */
  predicate IsHost(name: Text)
  {
    || (|name| == 4 && Lower(name[0]) == 104 && Lower(name[1]) == 111 && Lower(name[2]) == 115 && Lower(name[3]) == 116)
    || (|name| == 5 && Lower(name[0]) == 104 && Lower(name[1]) == 111 && name[2] == 0xc5 && name[3] == 0xbf &&
        Lower(name[4]) == 116)
  }

  // ----- normalizeHTTPHost -----

  /** The width of a white-space rune, given by its UTF-8 bytes; 0 for any other byte string. */
  function SpaceWidth(r: Text): (n: nat)
    ensures n <= |r|
  {
    if |r| == 1 && (9 <= r[0] <= 13 || r[0] == 32) then 1
    else if |r| == 2 && r[0] == 0xc2 && (r[1] == 0x85 || r[1] == 0xa0) then 2
    else if |r| == 3 && (|| r == [0xe1, 0x9a, 0x80] || r == [0xe3, 0x80, 0x80] || r == [0xe2, 0x81, 0x9f]
                         || (r[0] == 0xe2 && r[1] == 0x80 &&
                             (0x80 <= r[2] <= 0x8a || r[2] == 0xa8 || r[2] == 0xa9 || r[2] == 0xaf))) then 3
    else 0
  }

  function LeadingSpace(s: Text): (n: nat)
    ensures n <= |s|
  {
    if |s| >= 1 && SpaceWidth(s[..1]) == 1 then 1
    else if |s| >= 2 && SpaceWidth(s[..2]) == 2 then 2
    else if |s| >= 3 then SpaceWidth(s[..3]) else 0
  }

  function TrailingSpace(s: Text): (n: nat)
    ensures n <= |s|
  {
    if |s| >= 1 && SpaceWidth(s[|s| - 1..]) == 1 then 1
    else if |s| >= 2 && SpaceWidth(s[|s| - 2..]) == 2 then 2
    else if |s| >= 3 then SpaceWidth(s[|s| - 3..]) else 0
  }

  /** `strings.TrimSpace`. */
  function TrimSpace(s: Text): (r: Text)
    decreases |s|
  {
    if LeadingSpace(s) > 0 then TrimSpace(s[LeadingSpace(s)..])
    else if TrailingSpace(s) > 0 then TrimSpace(s[..|s| - TrailingSpace(s)])
    else s
  }

  /** The value of a decimal string, or more than 65535; -1 if it is not one. */
  function Decimal(s: Text): (v: int)
    ensures v >= -1
  {
    if s == [] then -1
    else
      var last := s[|s| - 1];
      if !(48 <= last <= 57) then -1
      else if |s| == 1 then last - 48
      else
        var init := Decimal(s[..|s| - 1]);
        if init < 0 then -1 else 10 * init + (last - 48)
  }

  function NormalizeHost(host: Text): (d: Text)
    ensures d != [] ==> ValidName(d)
  {
    var h := TrimSpace(host);
    if h == [] || (exists i :: 0 <= i < |h| && h[i] in {32, 9, 13, 10, 91, 93}) then []
    else
      var colon := IndexByte(h, COLON);
      // With no brackets, SplitHostPort succeeds exactly on one colon.
      if colon >= 0 && IndexByte(h[colon + 1..], COLON) < 0 then
        var port := Decimal(h[colon + 1..]);
        if port < 0 || port > 65535 || colon == 0 then []
        else match Normalize(h[..colon]) case Some(d) => d case None => []
      else match Normalize(h) case Some(d) => d case None => []
  }

  // ----- The parser's meaning -----

  /** The header loop with `host` collected so far; a malformed or repeated header ends it without a name. */
  function Headers(lines: seq<Text>, host: Text): (r: Result)
    decreases |lines|
  {
    if lines == [] then Result(NormalizeHost(host), Http, true, false)
    else
      var colon := IndexByte(lines[0], COLON);
      if colon <= 0 then UNNAMED
      else if IsHost(lines[0][..colon]) then
        if host != [] then UNNAMED else Headers(lines[1..], lines[0][colon + 1..])
      else Headers(lines[1..], host)
  }

  function Parse(raw: Text): (r: (Result, ParseState))
  {
    var space := IndexByte(raw, SPACE);
    if space < 0 then
      if forall k :: 0 <= k < |raw| ==> IsMethodChar(raw[k]) then (NOTHING, Incomplete) else (NOTHING, Invalid)
    else if space == 0 || exists k :: 0 <= k < space && !IsMethodChar(raw[k]) then (NOTHING, Invalid)
    else
      var end := IndexBlankLine(raw);
      if end < 0 then (NOTHING, Incomplete)
      else (Headers(SplitLines(raw[..end])[1..], []), Complete)
  }

  /** Once decided, more bytes change nothing. */
  lemma {:induction false} ParseStable(raw: Text, more: Text)
    requires Parse(raw).1 != Incomplete
    ensures Parse(raw + more) == Parse(raw)
  {
    hide Headers, SplitLines;
    var all := raw + more;
    var space, space' := IndexByte(raw, SPACE), IndexByte(all, SPACE);
    assert forall k :: 0 <= k < |raw| ==> all[k] == raw[k];
    if space < 0 {
      var k :| 0 <= k < |raw| && !IsMethodChar(raw[k]);
      assert !IsMethodChar(all[k]) && all[k] != SPACE;
      if space' >= 0 {
        assert k < space';
      }
    } else {
      assert space' == space by {
        assert all[space] == SPACE;
        assert space' >= 0 ==> all[space'] == SPACE;
      }
      if forall k :: 0 <= k < space ==> IsMethodChar(raw[k]) {
        var end, end' := IndexBlankLine(raw), IndexBlankLine(all);
        if end >= 0 {
          assert forall k: nat :: k <= end ==> (BlankLineAt(all, k) <==> BlankLineAt(raw, k));
          assert end' == end;
          assert all[..end] == raw[..end];
        }
      }
    }
  }

  // ----- The parser -----

  method AllMethodChars(s: Text) returns (ok: bool)
    ensures ok <==> forall k :: 0 <= k < |s| ==> IsMethodChar(s[k])
  {
    for i := 0 to |s|
      invariant forall k :: 0 <= k < i ==> IsMethodChar(s[k])
    {
      if !IsMethodChar(s[i]) {
        return false;
      }
    }
    ok := true;
  }

  method ParseHTTP(raw: Text) returns (result: Result, state: ParseState)
    ensures (result, state) == Parse(raw)
  {
    hide Headers, SplitLines, IsMethodChar;
    var space := IndexByte(raw, SPACE);
    if space < 0 {
      var letters := AllMethodChars(raw);
      return NOTHING, if letters then Incomplete else Invalid;
    }
    if space == 0 {
      return NOTHING, Invalid;
    }
    var letters := AllMethodChars(raw[..space]);
    assert forall k :: 0 <= k < space ==> raw[k] == raw[..space][k];
    if !letters {
      return NOTHING, Invalid;
    }
    var end := IndexBlankLine(raw);
    if end < 0 {
      return NOTHING, Incomplete;
    }
    result := ParseHeaders(SplitLines(raw[..end])[1..]);
    state := Complete;
  }

  method ParseHeaders(lines: seq<Text>) returns (r: Result)
    ensures r == Headers(lines, [])
  {
    hide NormalizeHost, IsHost;
    var host: Text := [];
    for i := 0 to |lines|
      invariant Headers(lines, []) == Headers(lines[i..], host)
    {
      var line := lines[i];
      assert lines[i..][1..] == lines[i + 1..];
      var colon := IndexByte(line, COLON);
      if colon <= 0 {
        return UNNAMED;
      }
      if IsHost(line[..colon]) {
        if host != [] {
          return UNNAMED;
        }
        host := line[colon + 1..];
      }
    }
    r := Result(NormalizeHost(host), Http, true, false);
  }

  // ----- Which request heads name a domain -----

  ghost predicate HasHeader(line: Text)
  {
    IndexByte(line, COLON) > 0
  }

  ghost predicate HostLine(line: Text)
  {
    HasHeader(line) && IsHost(line[..IndexByte(line, COLON)])
  }

  ghost function Value(line: Text): Text
    requires HasHeader(line)
  {
    line[IndexByte(line, COLON) + 1..]
  }

  /** Line `i` is the only Host header with a value, and no other follows it. */
  ghost predicate NamesHost(lines: seq<Text>, i: nat)
  {
    && i < |lines| && HostLine(lines[i]) && Value(lines[i]) != []
    && (forall j :: 0 <= j < i && HostLine(lines[j]) ==> Value(lines[j]) == [])
    && (forall j :: i < j < |lines| ==> !HostLine(lines[j]))
  }

  ghost predicate WellFormed(lines: seq<Text>)
  {
    forall j :: 0 <= j < |lines| ==> HasHeader(lines[j])
  }

  ghost predicate NoHost(lines: seq<Text>)
  {
    forall j :: 0 <= j < |lines| ==> !HostLine(lines[j])
  }

  lemma {:induction false} ConsLines(lines: seq<Text>)
    requires lines != []
    ensures WellFormed(lines) <==> HasHeader(lines[0]) && WellFormed(lines[1..])
    ensures NoHost(lines) <==> !HostLine(lines[0]) && NoHost(lines[1..])
  {
    hide HasHeader, HostLine;
    assert forall j :: 0 <= j < |lines| - 1 ==> lines[1..][j] == lines[j + 1];
    assert forall j :: 0 < j < |lines| ==> lines[j] == lines[1..][j - 1];
  }

  /** With a host collected, the rest must be well formed and hold no further Host header. */
  lemma {:induction false} HeadersAfterHost(lines: seq<Text>, host: Text, d: Text)
    requires host != [] && d != []
    ensures Headers(lines, host).domain == d <==> WellFormed(lines) && NoHost(lines) && NormalizeHost(host) == d
    decreases |lines|
  {
    hide NormalizeHost, IsHost, WellFormed, NoHost;
    if lines == [] {
      NoLines();
    } else {
      ConsLines(lines);
      HeadersAfterHost(lines[1..], host, d);
    }
  }

  lemma {:induction false} NoLines()
    ensures WellFormed([]) && NoHost([]) && NormalizeHost([]) == []
  {
  }

  lemma {:induction false} NamesFirst(lines: seq<Text>)
    requires lines != [] && HostLine(lines[0]) && Value(lines[0]) != []
    ensures NamesHost(lines, 0) <==> NoHost(lines[1..])
    ensures forall i: nat :: NamesHost(lines, i) ==> i == 0
  {
    hide HostLine;
    assert forall j :: 0 <= j < |lines| - 1 ==> lines[1..][j] == lines[j + 1];
    assert forall j :: 0 < j < |lines| ==> lines[j] == lines[1..][j - 1];
  }

  lemma {:induction false} NamesLater(lines: seq<Text>, i: nat)
    requires lines != [] && (HostLine(lines[0]) ==> Value(lines[0]) == [])
    ensures NamesHost(lines[1..], i) <==> NamesHost(lines, i + 1)
    ensures !NamesHost(lines, 0)
  {
  }

  /** What a named request head looks like. */
  lemma {:induction false} NamedHead(lines: seq<Text>, d: Text) returns (i: nat)
    requires d != [] && Headers(lines, []).domain == d
    ensures WellFormed(lines) && NamesHost(lines, i) && NormalizeHost(Value(lines[i])) == d
    decreases |lines|
  {
    hide NormalizeHost, IsHost, WellFormed, NamesHost, NoHost;
    NoLines();
    ConsLines(lines);
    if HostLine(lines[0]) && Value(lines[0]) != [] {
      HeadersAfterHost(lines[1..], Value(lines[0]), d);
      NamesFirst(lines);
      i := 0;
    } else {
      var k := NamedHead(lines[1..], d);
      InRange(lines[1..], k);
      NamesLater(lines, k);
      assert lines[1..][k] == lines[k + 1];
      i := k + 1;
    }
  }

  lemma {:induction false} HeadIsNamed(lines: seq<Text>, d: Text, i: nat)
    requires d != [] && WellFormed(lines) && NamesHost(lines, i) && NormalizeHost(Value(lines[i])) == d
    ensures Headers(lines, []).domain == d
    decreases |lines|
  {
    hide NormalizeHost, IsHost, WellFormed, NamesHost, NoHost;
    InRange(lines, i);
    ConsLines(lines);
    if HostLine(lines[0]) && Value(lines[0]) != [] {
      NamesFirst(lines);
      HeadersAfterHost(lines[1..], Value(lines[0]), d);
    } else {
      NamesLater(lines, if i == 0 then 0 else i - 1);
      HeadIsNamed(lines[1..], d, i - 1);
    }
  }

  lemma {:induction false} InRange(lines: seq<Text>, i: nat)
    requires NamesHost(lines, i)
    ensures i < |lines|
  {
  }

  /** A request head names `d` exactly when every header is well formed and its one Host header normalizes to `d`. */
  lemma {:induction false} HeadersExactly(lines: seq<Text>, d: Text)
    requires d != []
    ensures Headers(lines, []).domain == d <==>
            WellFormed(lines) && exists i: nat :: NamesHost(lines, i) && NormalizeHost(Value(lines[i])) == d
  {
    hide NormalizeHost, Headers, WellFormed;
    if Headers(lines, []).domain == d {
      var i := NamedHead(lines, d);
    }
    if i: nat :| WellFormed(lines) && NamesHost(lines, i) && NormalizeHost(Value(lines[i])) == d {
      HeadIsNamed(lines, d, i);
    }
  }

  // ----- Which hosts are accepted -----

  /** `name:port` with a decimal port of 16 bits. */
  ghost predicate WithPort(h: Text, name: Text, port: Text)
  {
    h == name + [COLON] + port && 0 <= Decimal(port) <= 65535
  }

  lemma {:induction false} ToLowerKeeps(s: Text, k: nat)
    requires k < |s| && s[k] < 128
    ensures Lower(s[k]) in ToLower(s)
  {
    var n := RuneWidth(s);
    if k < n {
      assert ToLower(s)[0] == Lower(s[k]);
    } else {
      ToLowerKeeps(s[n..], k - n);
      assert ToLower(s)[1..] == ToLower(s[n..]);
    }
  }

  /** A host that normalizes holds no space, bracket or colon. */
  lemma {:induction false} NormalizedBytes(h: Text, k: nat)
    requires Normalize(h).Some? && k < |h|
    ensures h[k] !in {32, 9, 13, 10, 91, 93, COLON}
  {
    hide Split, ToLower;
    var name := Normalize(h).value;
    BytesOfLabels(name);
    if h[k] < 128 {
      ToLowerKeeps(h, k);
      var i :| 0 <= i < |ToLower(h)| && ToLower(h)[i] == Lower(h[k]);
      assert i < |name| ==> name[i] == Lower(h[k]);
      assert NameByte(Lower(h[k]));
    }
  }

  lemma {:induction false} DecimalBytes(s: Text, k: nat)
    requires Decimal(s) >= 0 && k < |s|
    ensures 48 <= s[k] <= 57
  {
    if k == |s| - 1 {
    } else {
      DecimalBytes(s[..|s| - 1], k);
    }
  }

  lemma {:induction false} OneColon(name: Text, port: Text)
    requires COLON !in name && COLON !in port
    ensures var h := name + [COLON] + port;
            IndexByte(h, COLON) == |name| && h[..|name|] == name && h[|name| + 1..] == port && IndexByte(port, COLON) < 0
  {
    var h := name + [COLON] + port;
    assert forall k :: 0 <= k < |name| ==> h[k] == name[k];
    assert h[|name|] == COLON;
  }

  lemma {:induction false} PlainHost(host: Text, d: Text)
    requires d != [] && Normalize(TrimSpace(host)) == Some(d)
    ensures NormalizeHost(host) == d
  {
    hide Normalize, TrimSpace;
    var h := TrimSpace(host);
    forall k | 0 <= k < |h| ensures h[k] !in {32, 9, 13, 10, 91, 93, COLON} {
      NormalizedBytes(h, k);
    }
    EmptyIsNoName(h);
  }

  lemma {:induction false} EmptyIsNoName(h: Text)
    requires Normalize(h).Some?
    ensures h != []
  {
  }

  lemma {:induction false} HostWithPort(host: Text, name: Text, port: Text, d: Text)
    requires d != [] && WithPort(TrimSpace(host), name, port) && Normalize(name) == Some(d)
    ensures NormalizeHost(host) == d
  {
    hide Normalize, TrimSpace, Decimal;
    var h := TrimSpace(host);
    forall k | 0 <= k < |name| ensures name[k] !in {32, 9, 13, 10, 91, 93, COLON} {
      NormalizedBytes(name, k);
    }
    forall k | 0 <= k < |port| ensures 48 <= port[k] <= 57 {
      DecimalBytes(port, k);
    }
    EmptyIsNoName(name);
    OneColon(name, port);
  }

  /** The accepted hosts, after trimming: a domain name, or a domain name and a port. */
  lemma {:induction false} HostExactly(host: Text, d: Text)
    requires d != []
    ensures NormalizeHost(host) == d <==>
            || Normalize(TrimSpace(host)) == Some(d)
            || exists name, port :: WithPort(TrimSpace(host), name, port) && Normalize(name) == Some(d)
  {
    hide Normalize, TrimSpace, Decimal;
    var h := TrimSpace(host);
    if NormalizeHost(host) == d {
      var colon := IndexByte(h, COLON);
      if colon >= 0 && IndexByte(h[colon + 1..], COLON) < 0 {
        assert h == h[..colon] + [COLON] + h[colon + 1..];
        assert WithPort(h, h[..colon], h[colon + 1..]);
      }
    }
    if Normalize(h) == Some(d) {
      PlainHost(host, d);
    }
    if name, port :| WithPort(h, name, port) && Normalize(name) == Some(d) {
      HostWithPort(host, name, port, d);
    }
  }

  // ----- What trimming removes -----

  ghost function Flat(runes: seq<Text>): Text
  {
    if runes == [] then [] else runes[0] + Flat(runes[1..])
  }

  ghost predicate AllSpace(runes: seq<Text>)
  {
    forall i :: 0 <= i < |runes| ==> runes[i] != [] && SpaceWidth(runes[i]) == |runes[i]|
  }

  lemma {:induction false} FlatAppend(runes: seq<Text>, r: Text)
    ensures Flat(runes + [r]) == Flat(runes) + r
  {
    if runes == [] {
      assert runes + [r] == [r] && [r][1..] == [];
    } else {
      FlatAppend(runes[1..], r);
      assert (runes + [r])[1..] == runes[1..] + [r];
    }
  }

  lemma {:induction false} LeadingIsSpace(s: Text)
    ensures LeadingSpace(s) > 0 ==> SpaceWidth(s[..LeadingSpace(s)]) == LeadingSpace(s)
  {
  }

  lemma {:induction false} TrailingIsSpace(s: Text)
    ensures TrailingSpace(s) > 0 ==> SpaceWidth(s[|s| - TrailingSpace(s)..]) == TrailingSpace(s)
  {
  }

  lemma {:induction false} FlatCons(r: Text, runes: seq<Text>)
    ensures Flat([r] + runes) == r + Flat(runes)
  {
    assert ([r] + runes)[1..] == runes;
  }

  /** Trimming removes white-space runes at both ends, all of them and nothing else. */
  lemma {:induction false} TrimSpaceExactly(s: Text) returns (before: seq<Text>, after: seq<Text>)
    ensures s == Flat(before) + TrimSpace(s) + Flat(after) && AllSpace(before) && AllSpace(after)
    ensures LeadingSpace(TrimSpace(s)) == 0 && TrailingSpace(TrimSpace(s)) == 0
    decreases |s|
  {
    hide SpaceWidth, LeadingSpace, TrailingSpace, Flat;
    var n, m := LeadingSpace(s), TrailingSpace(s);
    if n > 0 {
      var rest;
      rest, after := TrimSpaceExactly(s[n..]);
      LeadingIsSpace(s);
      FlatCons(s[..n], rest);
      before := [s[..n]] + rest;
    } else if m > 0 {
      var rest;
      before, rest := TrimSpaceExactly(s[..|s| - m]);
      TrailingIsSpace(s);
      FlatAppend(rest, s[|s| - m..]);
      after := rest + [s[|s| - m..]];
    } else {
      before, after := [], [];
      FlatNone();
    }
  }

  lemma {:induction false} FlatNone()
    ensures Flat([]) == []
  {
  }
}
