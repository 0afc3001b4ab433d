/** Which byte strings internal/sniff/http.go takes for a request that names a domain. */
module SniffHttpMeanings {
  import opened Bytes
  import T = SniffTls
  import opened SniffHttp

  const CRLF: Text := [CR, LF]

  ghost function JoinLines(lines: seq<Text>): Text
    requires lines != []
  {
    if |lines| == 1 then lines[0] else lines[0] + CRLF + JoinLines(lines[1..])
  }

  ghost predicate CrlfAt(s: Text, i: int)
  {
    0 <= i && i + 2 <= |s| && s[i] == CR && s[i + 1] == LF
  }

  /** A line: no CRLF inside. */
  ghost predicate IsLine(s: Text)
  {
    forall i :: !CrlfAt(s, i)
  }

  ghost predicate AreLines(lines: seq<Text>)
  {
    forall i :: 0 <= i < |lines| ==> IsLine(lines[i])
  }

  // ----- Splitting and joining lines -----

  lemma {:induction false} JoinCons(line: Text, lines: seq<Text>)
    requires lines != []
    ensures JoinLines([line] + lines) == line + CRLF + JoinLines(lines)
  {
    assert ([line] + lines)[1..] == lines;
  }

  lemma {:induction false} JoinPrepend(b: byte, lines: seq<Text>)
    requires lines != []
    ensures JoinLines([[b] + lines[0]] + lines[1..]) == [b] + JoinLines(lines)
  {
    var longer := [[b] + lines[0]] + lines[1..];
    assert longer[1..] == lines[1..];
    if |lines| > 1 {
      assert longer[0] + CRLF + JoinLines(lines[1..]) == [b] + (lines[0] + CRLF + JoinLines(lines[1..]));
    }
  }

  /** The lines, joined with CRLF, are the string. */
  lemma {:induction false} JoinOfSplit(s: Text)
    ensures JoinLines(SplitLines(s)) == s
  {
    if s == [] {
    } else if CrlfAt(s, 0) {
      JoinOfSplit(s[2..]);
      JoinCons([], SplitLines(s[2..]));
      assert s == [] + CRLF + s[2..];
    } else {
      JoinOfSplit(s[1..]);
      JoinPrepend(s[0], SplitLines(s[1..]));
      assert s == [s[0]] + s[1..];
    }
  }

  lemma {:induction false} LinePrepend(b: byte, line: Text)
    requires IsLine(line) && !(b == CR && line != [] && line[0] == LF)
    ensures IsLine([b] + line)
  {
    var longer := [b] + line;
    forall i ensures !CrlfAt(longer, i) {
      assert i > 0 && CrlfAt(longer, i) ==> CrlfAt(line, i - 1);
    }
  }

  /** The first line begins as the string does, unless it is empty. */
  lemma {:induction false} FirstByte(s: Text)
    ensures SplitLines(s)[0] != [] ==> s != [] && SplitLines(s)[0][0] == s[0]
  {
  }

  lemma {:induction false} SplitIsLines(s: Text)
    ensures AreLines(SplitLines(s))
  {
    if s == [] {
      assert IsLine([]);
    } else if CrlfAt(s, 0) {
      SplitIsLines(s[2..]);
      assert IsLine([]);
    } else {
      var rest := SplitLines(s[1..]);
      SplitIsLines(s[1..]);
      FirstByte(s[1..]);
      LinePrepend(s[0], rest[0]);
      assert forall i :: 1 <= i < |rest| ==> IsLine(rest[i]);
    }
  }

  lemma {:induction false} SplitOfLine(line: Text, more: Text)
    requires IsLine(line)
    ensures SplitLines(line) == [line]
    ensures SplitLines(line + CRLF + more) == [line] + SplitLines(more)
  {
    var all := line + CRLF + more;
    if line == [] {
      assert all == CRLF + more && all[2..] == more;
    } else {
      var tail := line[1..];
      forall i ensures !CrlfAt(tail, i) {
        assert CrlfAt(tail, i) ==> CrlfAt(line, i + 1);
      }
      SplitOfLine(tail, more);
      assert !CrlfAt(line, 0);
      assert all[1..] == tail + CRLF + more;
      assert line == [line[0]] + tail;
      assert !CrlfAt(all, 0) by {
        assert |line| >= 2 ==> all[1] == line[1];
      }
    }
  }

  /** And a string joined from lines splits into them. */
  lemma {:induction false} SplitOfJoin(lines: seq<Text>)
    requires lines != [] && AreLines(lines)
    ensures SplitLines(JoinLines(lines)) == lines
  {
    hide SplitLines, IsLine;
    if |lines| == 1 {
      SplitOfLine(lines[0], []);
      assert lines == [lines[0]];
    } else {
      var rest := lines[1..];
      assert AreLines(rest) by {
        assert forall i :: 0 <= i < |rest| ==> rest[i] == lines[i + 1];
      }
      SplitOfJoin(rest);
      SplitOfLine(lines[0], JoinLines(rest));
      assert lines == [lines[0]] + rest;
    }
  }

  // ----- Requests -----

  ghost predicate Letters(s: Text)
  {
    forall k :: 0 <= k < |s| ==> IsMethodChar(s[k])
  }

  ghost function Head(verb: Text, target: Text, headers: seq<Text>): Text
  {
    JoinLines([verb + [SPACE] + target] + headers)
  }

  /**
   * `raw` is a request: a method of letters, a space and the rest of the first line, the header lines,
   * each ended by CRLF, and a blank line, which is the first in `raw`; then anything.
   */
  ghost predicate IsRequest(raw: Text, verb: Text, target: Text, headers: seq<Text>, body: Text)
  {
    var head := Head(verb, target, headers);
    && verb != [] && Letters(verb) && IsLine(target) && AreLines(headers)
    && raw == head + CRLF + CRLF + body
    && forall k: nat :: k < |head| ==> !BlankLineAt(raw, k)
  }

  lemma {:induction false} FirstLineOk(verb: Text, target: Text)
    requires Letters(verb) && IsLine(target)
    ensures IsLine(verb + [SPACE] + target)
  {
    var line := verb + [SPACE] + target;
    forall i ensures !CrlfAt(line, i) {
      assert i > |verb| && CrlfAt(line, i) ==> CrlfAt(target, i - |verb| - 1);
    }
  }

  lemma {:induction false} HeadBegins(verb: Text, target: Text, headers: seq<Text>)
    ensures verb + [SPACE] <= Head(verb, target, headers)
  {
  }

  lemma {:induction false} FirstSpace(raw: Text, verb: Text)
    requires Letters(verb) && verb + [SPACE] <= raw
    ensures IndexByte(raw, SPACE) == |verb|
  {
    assert raw[|verb|] == (verb + [SPACE])[|verb|];
    forall k | 0 <= k < |verb| ensures raw[k] != SPACE {
      assert raw[k] == (verb + [SPACE])[k];
    }
  }

  lemma {:induction false} BlankLineFound(raw: Text, head: Text, body: Text)
    requires raw == head + CRLF + CRLF + body && forall k: nat :: k < |head| ==> !BlankLineAt(raw, k)
    ensures IndexBlankLine(raw) == |head| && raw[..|head|] == head
  {
    assert BlankLineAt(raw, |head|);
  }

  /** A request is complete, and its header lines alone decide what it names. */
  lemma {:induction false} RequestParses(raw: Text, verb: Text, target: Text, headers: seq<Text>, body: Text)
    requires IsRequest(raw, verb, target, headers, body)
    ensures SniffHttp.Parse(raw) == (Headers(headers, []), T.Complete)
  {
    hide Headers, SplitLines, IndexByte, IndexBlankLine;
    var head := Head(verb, target, headers);
    var lines := [verb + [SPACE] + target] + headers;
    HeadBegins(verb, target, headers);
    assert head <= raw;
    FirstSpace(raw, verb);
    forall k | 0 <= k < |verb| ensures IsMethodChar(raw[k]) {
      assert raw[k] == (verb + [SPACE])[k] == verb[k];
    }
    BlankLineFound(raw, head, body);
    FirstLineOk(verb, target);
    SplitOfJoin(lines);
    assert lines[1..] == headers;
  }

  /** Whatever is complete is a request. */
  lemma {:induction false} CompleteIsRequest(raw: Text)
    returns (verb: Text, target: Text, headers: seq<Text>, body: Text)
    requires SniffHttp.Parse(raw).1 == T.Complete
    ensures IsRequest(raw, verb, target, headers, body)
  {
    hide Headers, SplitLines;
    var space, end := IndexByte(raw, SPACE), IndexBlankLine(raw);
    var lines := SplitLines(raw[..end]);
    var first := lines[0];
    verb, headers, body := raw[..space], lines[1..], raw[end + 4..];
    JoinOfSplit(raw[..end]);
    SplitIsLines(raw[..end]);
    SpaceBeforeBlank(raw, space, end);
    FirstLineBegins(raw[..end], verb);
    target := first[space + 1..];
    assert first == verb + [SPACE] + target;
    forall i ensures !CrlfAt(target, i) {
      assert CrlfAt(target, i) ==> CrlfAt(first, i + space + 1);
    }
    assert lines == [first] + headers;
    assert raw == raw[..end] + CRLF + CRLF + body;
  }

  lemma {:induction false} SpaceBeforeBlank(raw: Text, space: int, end: int)
    requires 0 <= space < |raw| && raw[space] == SPACE && (forall k :: 0 <= k < space ==> IsMethodChar(raw[k]))
    requires end >= 0 && BlankLineAt(raw, end)
    ensures space < end
  {
  }

  lemma {:induction false} FirstLineBegins(head: Text, verb: Text)
    requires Letters(verb) && verb + [SPACE] <= head
    ensures verb + [SPACE] <= SplitLines(head)[0]
    decreases |verb|
  {
    assert head[0] == (verb + [SPACE])[0];
    var rest := SplitLines(head[1..]);
    if verb == [] {
      assert SplitLines(head)[0] == [head[0]] + rest[0];
    } else {
      var tail := verb[1..];
      assert verb + [SPACE] == [verb[0]] + (tail + [SPACE]);
      assert tail + [SPACE] <= head[1..];
      FirstLineBegins(head[1..], tail);
      assert IsMethodChar(head[0]);
      assert SplitLines(head)[0] == [head[0]] + rest[0];
    }
  }

  /** The header lines are well formed, and the one Host header with a value normalizes to `d`. */
  ghost predicate Names(headers: seq<Text>, d: Text)
  {
    WellFormed(headers) && exists i: nat :: NamesHost(headers, i) && NormalizeHost(Value(headers[i])) == d
  }

  /** A byte string names `d` exactly if it is a request whose header lines do. */
  lemma {:induction false} ParseExactly(raw: Text, d: Text)
    requires d != []
    ensures SniffHttp.Parse(raw).1 == T.Complete && SniffHttp.Parse(raw).0.domain == d <==>
            exists verb, target, headers, body :: IsRequest(raw, verb, target, headers, body) && Names(headers, d)
  {
    hide SniffHttp.Parse, IsRequest, WellFormed, NamesHost, NormalizeHost, Headers;
    if SniffHttp.Parse(raw).1 == T.Complete && SniffHttp.Parse(raw).0.domain == d {
      var verb, target, headers, body := CompleteIsRequest(raw);
      RequestParses(raw, verb, target, headers, body);
      HeadersExactly(headers, d);
      assert IsRequest(raw, verb, target, headers, body) && Names(headers, d);
    }
    if verb, target, headers, body :| IsRequest(raw, verb, target, headers, body) && Names(headers, d) {
      RequestParses(raw, verb, target, headers, body);
      HeadersExactly(headers, d);
    }
  }

  /** It is incomplete exactly while it may still become one: letters, or letters and a space with no blank line yet. */
  lemma {:induction false} IncompleteExactly(raw: Text)
    ensures SniffHttp.Parse(raw).1 == T.Incomplete <==>
            || Letters(raw)
            || (&& (forall k: nat :: !BlankLineAt(raw, k))
                && exists verb :: verb != [] && Letters(verb) && verb + [SPACE] <= raw)
  {
    hide Headers, SplitLines;
    var space := IndexByte(raw, SPACE);
    if verb :| verb != [] && Letters(verb) && verb + [SPACE] <= raw {
      FirstSpace(raw, verb);
      assert forall k :: 0 <= k < |verb| ==> raw[k] == (verb + [SPACE])[k] == verb[k];
    }
    if space > 0 && forall k :: 0 <= k < space ==> IsMethodChar(raw[k]) {
      var verb := raw[..space];
      assert verb != [] && Letters(verb) && verb + [SPACE] <= raw;
    }
    assert space >= 0 ==> !IsMethodChar(raw[space]);
  }

  /** What comes with a complete request, whether it names a domain or not; anything else gives nothing. */
  lemma {:induction false} ResultExactly(raw: Text)
    ensures var (r, state) := SniffHttp.Parse(raw);
            if state == T.Complete then r.protocol == T.Http && r.complete && !r.ech
            else r.domain == [] && r.protocol == T.NoProtocol && !r.complete && !r.ech
  {
    hide Headers, IndexByte, IndexBlankLine, SplitLines;
    var end := IndexBlankLine(raw);
    if SniffHttp.Parse(raw).1 == T.Complete {
      HeadersShape(SplitLines(raw[..end])[1..], []);
    }
  }

  lemma {:induction false} HeadersShape(lines: seq<Text>, host: Text)
    ensures var r := Headers(lines, host); r.protocol == T.Http && r.complete && !r.ech
    decreases |lines|
  {
    hide NormalizeHost, IsHost;
    if lines == [] {
    } else {
      HeadersShape(lines[1..], host);
      var colon := IndexByte(lines[0], COLON);
      if colon > 0 {
        HeadersShape(lines[1..], lines[0][colon + 1..]);
      }
    }
  }
}
