/** internal/sniff/tls.go: the server name of a TLS ClientHello (section 4.1.2 of RFC 8446). */
module SniffTls {
  import opened Bytes
  import opened Domains

  datatype Protocol = NoProtocol | Tls | Http
  datatype Result = Result(domain: Text, protocol: Protocol, complete: bool, ech: bool)
  datatype ParseState = Invalid | Incomplete | Complete

  const NOTHING := Result([], NoProtocol, false, false)

  const SERVER_NAME: u16 := 0
  const ENCRYPTED_CLIENT_HELLO: u16 := 0xfe0d

  // ----- The parser's meaning, on what is left to read -----

  /** A length-prefixed vector and what follows it. */
  function TakeVector(s: Text, width: int): (r: Option<(Text, Text)>)
    requires width == 1 || width == 2
    ensures r.Some? ==> |r.value.0| + |r.value.1| + width == |s|
  {
    if |s| < width then None
    else
      var n: int := if width == 1 then s[0] else U16At(s, 0);
      if n > |s| - width then None else Some((s[width..width + n], s[width + n..]))
  }

  /** The first host_name entry of a server name list, normalized; empty if there is none. */
  function FirstHostName(s: Text): (d: Text)
  {
    if |s| < 3 then []
    else
      var n: int := U16At(s, 1);
      if n > |s| - 3 then []
      else if s[0] == 0 then match Normalize(s[3..3 + n]) case Some(d) => d case None => []
      else FirstHostName(s[3 + n..])
  }

  function ServerName(s: Text): (d: Text)
  {
    if |s| < 2 || U16At(s, 0) != |s| - 2 then [] else FirstHostName(s[2..])
  }

  /** The extension loop from a point where `seen`, `domain` and `ech` have been collected. */
  function WalkExtensions(s: Text, seen: bool, domain: Text, ech: bool): (r: Option<Result>)
    decreases |s|
  {
    if s == [] then Some(Result(domain, Tls, true, ech))
    else if |s| < 4 then None
    else
      var kind, n: int := U16At(s, 0), U16At(s, 2);
      if n > |s| - 4 then None
      else if kind == SERVER_NAME then
        var name := ServerName(s[4..4 + n]);
        if seen || name == [] then None else WalkExtensions(s[4 + n..], true, name, ech)
      else WalkExtensions(s[4 + n..], seen, domain, ech || kind == ENCRYPTED_CLIENT_HELLO)
  }

  function Extensions(s: Text): (r: Option<Result>)
  {
    if |s| < 2 then None
    else
      var n: int := U16At(s, 0);
      if n > |s| - 2 then None else WalkExtensions(s[2..2 + n], false, [], false)
  }

  /** A ClientHello: version and random, session id, cipher suites, compression, extensions. */
  function Hello(body: Text): (r: Option<Result>)
  {
    if |body| < 34 then None
    else
      match TakeVector(body[34..], 1)
      case None => None
      case Some((_, s1)) =>
        match TakeVector(s1, 2)
        case None => None
        case Some((_, s2)) =>
          match TakeVector(s2, 1)
          case None => None
          case Some((_, s3)) => Extensions(s3)
  }

  function U24At(s: Text, i: nat): (n: nat)
    requires i + 3 <= |s|
  {
    0x1_0000 * (s[i] as int) + U16At(s, i + 1)
  }

  function Handshake(record: Text): (r: Option<Result>)
  {
    if |record| < 4 || record[0] != 1 || U24At(record, 1) > |record| - 4 then None
    else Hello(record[4..4 + U24At(record, 1)])
  }

  function Parse(raw: Text): (r: (Result, ParseState))
  {
    if |raw| < 5 then (NOTHING, Incomplete)
    else if raw[0] != 22 || U16At(raw, 3) < 4 then (NOTHING, Invalid)
    else if |raw| < 5 + U16At(raw, 3) then (NOTHING, Incomplete)
    else
      match Handshake(raw[5..5 + U16At(raw, 3)])
      case None => (NOTHING, Invalid)
      case Some(result) => (result, Complete)
  }

  /** Once decided, more bytes change nothing. */
  lemma {:induction false} ParseStable(raw: Text, more: Text)
    requires Parse(raw).1 != Incomplete
    ensures Parse(raw + more) == Parse(raw)
  {
    var all := raw + more;
    assert U16At(all, 3) == U16At(raw, 3) && all[0] == raw[0];
    if |raw| >= 5 + U16At(raw, 3) {
      assert all[5..5 + U16At(raw, 3)] == raw[5..5 + U16At(raw, 3)];
    }
  }

  // ----- The parser -----

  method SkipVector(raw: Text, pos: nat, width: int) returns (next: nat, ok: bool)
    ensures ok ==> next <= |raw|
    ensures pos > |raw| || (width != 1 && width != 2) ==> !ok
    ensures pos <= |raw| && (width == 1 || width == 2) ==>
              match TakeVector(raw[pos..], width) case None => !ok case Some((_, rest)) => ok && rest == raw[next..]
  {
    if width != 1 && width != 2 {
      return 0, false;
    }
    if pos + width > |raw| {
      return 0, false;
    }
    var length: int := raw[pos];
    if width == 2 {
      length := U16At(raw, pos);
    }
    var after := pos + width;
    if length > |raw| - after {
      return 0, false;
    }
    next, ok := after + length, true;
  }

  method ParseServerName(raw: Text) returns (domain: Text)
    ensures domain == ServerName(raw)
  {
    hide Normalize;
    if |raw| < 2 {
      return [];
    }
    if U16At(raw, 0) != |raw| - 2 {
      return [];
    }
    var pos := 2;
    while pos < |raw|
      invariant 2 <= pos <= |raw|
      invariant ServerName(raw) == FirstHostName(raw[pos..])
    {
      ghost var s := raw[pos..];
      if pos + 3 > |raw| {
        return [];
      }
      var nameType := raw[pos];
      var length: int := U16At(raw, pos + 1);
      pos := pos + 3;
      if length > |raw| - pos {
        return [];
      }
      assert s[3..3 + length] == raw[pos..pos + length] && s[3 + length..] == raw[pos + length..];
      if nameType == 0 {
        var name := NormalizeDomain(raw[pos..pos + length]);
        if name.Some? {
          return name.value;
        }
        return [];
      }
      pos := pos + length;
    }
    return [];
  }

  method ParseExtensions(extensions: Text) returns (r: Option<Result>)
    ensures r == WalkExtensions(extensions, false, [], false)
  {
    hide ServerName;
    var domain, ech, seenSNI := [], false, false;
    var pos := 0;
    while pos < |extensions|
      invariant 0 <= pos <= |extensions|
      invariant WalkExtensions(extensions, false, [], false) == WalkExtensions(extensions[pos..], seenSNI, domain, ech)
    {
      ghost var s := extensions[pos..];
      if pos + 4 > |extensions| {
        return None;
      }
      var typeID, length: int := U16At(extensions, pos), U16At(extensions, pos + 2);
      pos := pos + 4;
      if length > |extensions| - pos {
        return None;
      }
      assert s[4..4 + length] == extensions[pos..pos + length] && s[4 + length..] == extensions[pos + length..];
      if typeID == SERVER_NAME {
        if seenSNI {
          return None;
        }
        seenSNI := true;
        domain := ParseServerName(extensions[pos..pos + length]);
        if domain == [] {
          return None;
        }
      }
      if typeID == ENCRYPTED_CLIENT_HELLO {
        ech := true;
      }
      pos := pos + length;
    }
    r := Some(Result(domain, Tls, true, ech));
  }

  method ParseTLS(raw: Text) returns (result: Result, state: ParseState)
    ensures (result, state) == Parse(raw)
  {
    if |raw| < 5 {
      return NOTHING, Incomplete;
    }
    if raw[0] != 22 {
      return NOTHING, Invalid;
    }
    var recordLength: int := U16At(raw, 3);
    if recordLength < 4 {
      return NOTHING, Invalid;
    }
    if |raw| < 5 + recordLength {
      return NOTHING, Incomplete;
    }
    var record := raw[5..5 + recordLength];
    var inner := ParseHandshake(record);
    match inner {
      case None => return NOTHING, Invalid;
      case Some(r) => return r, Complete;
    }
  }

  method ParseHandshake(record: Text) returns (r: Option<Result>)
    requires |record| >= 4
    ensures r == Handshake(record)
  {
    hide WalkExtensions, TakeVector;
    if record[0] != 1 {
      return None;
    }
    var handshakeLength := U24At(record, 1);
    if handshakeLength > |record| - 4 {
      return None;
    }
    if handshakeLength < 34 {
      return None;
    }
    var body := record[4..4 + handshakeLength];
    var pos, ok := SkipVector(body, 34, 1);
    if !ok {
      return None;
    }
    pos, ok := SkipVector(body, pos, 2);
    if !ok {
      return None;
    }
    pos, ok := SkipVector(body, pos, 1);
    if !ok {
      return None;
    }
    if pos + 2 > |body| {
      return None;
    }
    var extensionsLength: int := U16At(body, pos);
    ghost var s := body[pos..];
    pos := pos + 2;
    if extensionsLength > |body| - pos {
      return None;
    }
    assert s[2..2 + extensionsLength] == body[pos..pos + extensionsLength];
    r := ParseExtensions(body[pos..pos + extensionsLength]);
  }

  // ----- The format -----

  /** One entry of a ServerNameList (section 3 of RFC 6066). */
  datatype NameEntry = NameEntry(kind: byte, name: Text)

  ghost predicate Fits(s: Text, limit: nat)
  {
    |s| <= limit
  }

  ghost function EntryBytes(e: NameEntry): Text
    requires Fits(e.name, 65535)
  {
    [e.kind] + U16(|e.name|) + e.name
  }

  ghost function EntriesBytes(es: seq<NameEntry>): Text
    requires forall e :: e in es ==> Fits(e.name, 65535)
  {
    if es == [] then [] else EntryBytes(es[0]) + EntriesBytes(es[1..])
  }

  /** Other entries, then a host_name, then bytes that are not looked at. */
  datatype NameList = NameList(others: seq<NameEntry>, host: Text, tail: Text)

  ghost predicate ValidNames(l: NameList)
  {
    (forall e :: e in l.others ==> e.kind != 0 && Fits(e.name, 65535)) && Fits(l.host, 65535)
  }

  ghost function NamesBytes(l: NameList): Text
    requires ValidNames(l)
  {
    EntriesBytes(l.others) + (EntryBytes(NameEntry(0, l.host)) + l.tail)
  }

  lemma {:induction false} OneEntry(e: NameEntry, rest: Text)
    requires Fits(e.name, 65535)
    ensures var s := EntryBytes(e) + rest;
            |s| >= 3 && s[0] == e.kind && U16At(s, 1) == |e.name| && |e.name| <= |s| - 3 &&
            s[3..3 + |e.name|] == e.name && s[3 + |e.name|..] == rest
  {
  }

  lemma {:induction false} EntryOf(s: Text)
    requires |s| >= 3 && U16At(s, 1) <= |s| - 3
    ensures var n: int := U16At(s, 1);
            s == EntryBytes(NameEntry(s[0], s[3..3 + n])) + s[3 + n..]
  {
  }

  /** Parsing a name list finds its first host_name. */
  lemma {:induction false} HostNameFound(l: NameList)
    requires ValidNames(l)
    ensures FirstHostName(NamesBytes(l)) == match Normalize(l.host) case Some(d) => d case None => []
    decreases |l.others|
  {
    hide Normalize, EntryBytes;
    var rest := EntryBytes(NameEntry(0, l.host)) + l.tail;
    if l.others == [] {
      assert NamesBytes(l) == rest;
      OneEntry(NameEntry(0, l.host), l.tail);
    } else {
      var shorter := l.(others := l.others[1..]);
      assert NamesBytes(l) == EntryBytes(l.others[0]) + NamesBytes(shorter);
      OneEntry(l.others[0], NamesBytes(shorter));
      HostNameFound(shorter);
    }
  }

  /** A name is found only where the bytes are such a list. */
  lemma {:induction false} HostNameExists(s: Text) returns (l: NameList)
    requires FirstHostName(s) != []
    ensures ValidNames(l) && s == NamesBytes(l) && Normalize(l.host) == Some(FirstHostName(s))
    decreases |s|
  {
    hide Normalize, EntryBytes;
    var n: int := U16At(s, 1);
    var entry, rest := NameEntry(s[0], s[3..3 + n]), s[3 + n..];
    EntryOf(s);
    if s[0] == 0 {
      l := NameList([], entry.name, rest);
      assert EntriesBytes([]) + (EntryBytes(entry) + rest) == s;
    } else {
      var inner := HostNameExists(rest);
      l := inner.(others := [entry] + inner.others);
      assert l.others[1..] == inner.others;
      assert NamesBytes(l) == EntryBytes(entry) + NamesBytes(inner);
    }
  }

  datatype Ext = Ext(kind: u16, body: Text)

  ghost function ExtBytes(e: Ext): Text
    requires Fits(e.body, 65535)
  {
    U16(e.kind) + U16(|e.body|) + e.body
  }

  ghost predicate ValidExts(es: seq<Ext>)
  {
    forall i :: 0 <= i < |es| ==> Fits(es[i].body, 65535)
  }

  ghost function ExtsBytes(es: seq<Ext>): Text
    requires ValidExts(es)
  {
    if es == [] then [] else ExtBytes(es[0]) + ExtsBytes(es[1..])
  }

  lemma {:induction false} OneExt(e: Ext, rest: Text)
    requires Fits(e.body, 65535)
    ensures var s := ExtBytes(e) + rest;
            |s| >= 4 && U16At(s, 0) == e.kind && U16At(s, 2) == |e.body| && |e.body| <= |s| - 4 &&
            s[4..4 + |e.body|] == e.body && s[4 + |e.body|..] == rest
  {
  }

  lemma {:induction false} ExtOf(s: Text)
    requires |s| >= 4 && U16At(s, 2) <= |s| - 4
    ensures var n: int := U16At(s, 2);
            s == ExtBytes(Ext(U16At(s, 0), s[4..4 + n])) + s[4 + n..]
  {
  }

  /** What the extension loop makes of a list of extensions. */
  function Judge(es: seq<Ext>, seen: bool, domain: Text, ech: bool): Option<Result>
  {
    if es == [] then Some(Result(domain, Tls, true, ech))
    else if es[0].kind == SERVER_NAME then
      var name := ServerName(es[0].body);
      if seen || name == [] then None else Judge(es[1..], true, name, ech)
    else Judge(es[1..], seen, domain, ech || es[0].kind == ENCRYPTED_CLIENT_HELLO)
  }

  lemma {:induction false} WalkIsJudge(es: seq<Ext>, seen: bool, domain: Text, ech: bool)
    requires ValidExts(es)
    ensures WalkExtensions(ExtsBytes(es), seen, domain, ech) == Judge(es, seen, domain, ech)
    decreases |es|
  {
    hide ServerName, ExtBytes;
    if es == [] {
    } else {
      var rest := ExtsBytes(es[1..]);
      OneExt(es[0], rest);
      if es[0].kind == SERVER_NAME {
        WalkIsJudge(es[1..], true, ServerName(es[0].body), ech);
      } else {
        WalkIsJudge(es[1..], seen, domain, ech || es[0].kind == ENCRYPTED_CLIENT_HELLO);
      }
    }
  }

  /** The loop accepts only lists of extensions. */
  lemma {:induction false} WalkedIsList(s: Text, seen: bool, domain: Text, ech: bool) returns (es: seq<Ext>)
    requires WalkExtensions(s, seen, domain, ech).Some?
    ensures ValidExts(es) && s == ExtsBytes(es)
    decreases |s|
  {
    hide ServerName, ExtBytes;
    if s == [] {
      es := [];
    } else {
      var n: int := U16At(s, 2);
      var e := Ext(U16At(s, 0), s[4..4 + n]);
      ExtOf(s);
      var rest;
      if e.kind == SERVER_NAME {
        rest := WalkedIsList(s[4 + n..], true, ServerName(e.body), ech);
      } else {
        rest := WalkedIsList(s[4 + n..], seen, domain, ech || e.kind == ENCRYPTED_CLIENT_HELLO);
      }
      es := [e] + rest;
      assert es[1..] == rest;
    }
  }

  /**
   * At most one server_name extension, in any position; it carries the domain. The ECH flag says
   * whether an encrypted_client_hello extension is present.
   */
  ghost predicate Accepts(es: seq<Ext>, r: Result)
  {
    && r.protocol == Tls && r.complete
    && (r.ech <==> exists i :: 0 <= i < |es| && es[i].kind == ENCRYPTED_CLIENT_HELLO)
    && (forall i, j :: 0 <= i < j < |es| ==> es[i].kind != SERVER_NAME || es[j].kind != SERVER_NAME)
    && (forall i :: 0 <= i < |es| && es[i].kind == SERVER_NAME ==> r.domain != [] && ServerName(es[i].body) == r.domain)
    && (r.domain != [] ==> exists i :: 0 <= i < |es| && es[i].kind == SERVER_NAME)
  }

  /** `Accepts` from a point where `seen`, `domain` and `ech` have been collected. */
  ghost predicate AcceptsFrom(es: seq<Ext>, seen: bool, domain: Text, ech: bool, r: Result)
  {
    && r.protocol == Tls && r.complete
    && (r.ech <==> ech || exists i :: 0 <= i < |es| && es[i].kind == ENCRYPTED_CLIENT_HELLO)
    && (forall i, j :: 0 <= i < j < |es| ==> es[i].kind != SERVER_NAME || es[j].kind != SERVER_NAME)
    && (forall i :: 0 <= i < |es| && es[i].kind == SERVER_NAME ==>
                      !seen && r.domain != [] && ServerName(es[i].body) == r.domain)
    && ((forall i :: 0 <= i < |es| ==> es[i].kind != SERVER_NAME) ==> r.domain == domain)
  }

  lemma {:induction false} JudgeAccepts(es: seq<Ext>, seen: bool, domain: Text, ech: bool, r: Result)
    ensures Judge(es, seen, domain, ech) == Some(r) <==> AcceptsFrom(es, seen, domain, ech, r)
    decreases |es|
  {
    hide ServerName;
    if es == [] {
    } else {
      var rest := es[1..];
      assert forall i :: 1 <= i < |es| ==> es[i] == rest[i - 1];
      if es[0].kind == SERVER_NAME {
        JudgeAccepts(rest, true, ServerName(es[0].body), ech, r);
      } else {
        JudgeAccepts(rest, seen, domain, ech || es[0].kind == ENCRYPTED_CLIENT_HELLO, r);
      }
    }
  }

  /** A ClientHello alone in its record, with whatever the parser does not look at. */
  datatype ClientHello = ClientHello(
    recordVersion: Text, versionAndRandom: Text, sessionId: Text, ciphers: Text, compression: Text,
    extensions: seq<Ext>, afterExtensions: Text, afterHandshake: Text, afterRecord: Text)

  ghost function Vector(v: Text, width: int): Text
    requires (width == 1 && Fits(v, 255)) || (width == 2 && Fits(v, 65535))
  {
    (if width == 1 then [|v|] else U16(|v|)) + v
  }

  ghost predicate ValidHello(h: ClientHello)
  {
    && |h.recordVersion| == 2 && |h.versionAndRandom| == 34
    && Fits(h.sessionId, 255) && Fits(h.ciphers, 65535) && Fits(h.compression, 255)
    && ValidExts(h.extensions) && Fits(ExtsBytes(h.extensions), 65535)
    && Fits(RecordBytes(h), 65535)
  }

  ghost function BodyBytes(h: ClientHello): Text
    requires Fits(h.sessionId, 255) && Fits(h.ciphers, 65535) && Fits(h.compression, 255)
    requires ValidExts(h.extensions) && Fits(ExtsBytes(h.extensions), 65535)
  {
    h.versionAndRandom +
    (Vector(h.sessionId, 1) + (Vector(h.ciphers, 2) + (Vector(h.compression, 1) +
                                                       (Vector(ExtsBytes(h.extensions), 2) + h.afterExtensions))))
  }

  /** The handshake header holds a 24-bit length; a record is too short to need its top byte for more. */
  ghost function RecordBytes(h: ClientHello): Text
    requires Fits(h.sessionId, 255) && Fits(h.ciphers, 65535) && Fits(h.compression, 255)
    requires ValidExts(h.extensions) && Fits(ExtsBytes(h.extensions), 65535)
  {
    var body := BodyBytes(h);
    [1] + ([|body| / 0x1_0000 % 256] + U16(|body| % 0x1_0000)) + body + h.afterHandshake
  }

  ghost function HelloBytes(h: ClientHello): Text
    requires ValidHello(h)
  {
    [22] + h.recordVersion + U16(|RecordBytes(h)|) + (RecordBytes(h) + h.afterRecord)
  }

  lemma {:induction false} VectorTaken(v: Text, width: int, rest: Text)
    requires (width == 1 && Fits(v, 255)) || (width == 2 && Fits(v, 65535))
    ensures TakeVector(Vector(v, width) + rest, width) == Some((v, rest))
  {
  }

  lemma {:induction false} TakenVector(s: Text, width: int)
    requires (width == 1 || width == 2) && TakeVector(s, width).Some?
    ensures var (v, rest) := TakeVector(s, width).value;
            ((width == 1 && Fits(v, 255)) || (width == 2 && Fits(v, 65535))) && s == Vector(v, width) + rest
  {
  }

  lemma {:induction false} HelloOfBody(h: ClientHello)
    requires ValidHello(h)
    ensures Hello(BodyBytes(h)) == Judge(h.extensions, false, [], false)
  {
    hide Vector, TakeVector, WalkExtensions, Judge;
    var s4 := Vector(ExtsBytes(h.extensions), 2) + h.afterExtensions;
    var s3 := Vector(h.compression, 1) + s4;
    var s2 := Vector(h.ciphers, 2) + s3;
    assert BodyBytes(h)[34..] == Vector(h.sessionId, 1) + s2;
    VectorTaken(h.sessionId, 1, s2);
    VectorTaken(h.ciphers, 2, s3);
    VectorTaken(h.compression, 1, s4);
    VectorTaken(ExtsBytes(h.extensions), 2, h.afterExtensions);
    ExtensionsOfVector(s4);
    WalkIsJudge(h.extensions, false, [], false);
  }

  lemma {:induction false} ExtensionsOfVector(s: Text)
    ensures Extensions(s) == match TakeVector(s, 2) case None => None case Some((v, _)) => WalkExtensions(v, false, [], false)
  {
  }

  lemma {:induction false} RecordOf(h: ClientHello)
    requires ValidHello(h)
    ensures Handshake(RecordBytes(h)) == Hello(BodyBytes(h)) && |BodyBytes(h)| >= 34
  {
    hide BodyBytes, Hello;
    var record, body := RecordBytes(h), BodyBytes(h);
    assert |body| >= 34 by { BodyLongEnough(h); }
    assert |body| / 0x1_0000 == 0;
    assert record == [1, 0] + U16(|body|) + (body + h.afterHandshake);
    U16InContext([1, 0], |body|, body + h.afterHandshake);
    assert U24At(record, 1) == |body|;
    assert record[4..4 + |body|] == body;
  }

  lemma {:induction false} BodyLongEnough(h: ClientHello)
    requires ValidHello(h)
    ensures |BodyBytes(h)| >= 34
  {
  }

  /** Parsing a well-formed ClientHello gives what its extensions say, whatever surrounds them. */
  lemma {:induction false} ParseOfHello(h: ClientHello)
    requires ValidHello(h)
    ensures Parse(HelloBytes(h)) == match Judge(h.extensions, false, [], false)
                                    case None => (NOTHING, Invalid)
                                    case Some(r) => (r, Complete)
  {
    hide RecordBytes, Handshake, Judge, BodyBytes;
    var raw, record := HelloBytes(h), RecordBytes(h);
    assert |record| >= 4 by { RecordLongEnough(h); }
    assert raw == ([22] + h.recordVersion) + U16(|record|) + (record + h.afterRecord);
    U16InContext([22] + h.recordVersion, |record|, record + h.afterRecord);
    assert raw[5..5 + |record|] == record;
    RecordOf(h);
    HelloOfBody(h);
  }

  lemma {:induction false} RecordLongEnough(h: ClientHello)
    requires ValidHello(h)
    ensures |RecordBytes(h)| >= 4
  {
  }

  /** The bytes of an accepted body are those of a ClientHello. */
  lemma {:induction false} BodyExists(body: Text, after: Text) returns (h: ClientHello)
    requires Hello(body).Some? && |body| + |after| + 4 <= 65535
    ensures h.afterHandshake == after && |h.versionAndRandom| == 34
    ensures Fits(h.sessionId, 255) && Fits(h.ciphers, 65535) && Fits(h.compression, 255)
    ensures ValidExts(h.extensions) && Fits(ExtsBytes(h.extensions), 65535)
    ensures body == BodyBytes(h)
  {
    hide Vector, TakeVector, WalkExtensions;
    var (sessionId, s1) := TakeVector(body[34..], 1).value;
    var (ciphers, s2) := TakeVector(s1, 2).value;
    var (compression, s3) := TakeVector(s2, 1).value;
    TakenVector(body[34..], 1);
    TakenVector(s1, 2);
    TakenVector(s2, 1);
    ExtensionsOfVector(s3);
    TakenVector(s3, 2);
    var (exts, rest) := TakeVector(s3, 2).value;
    var es := WalkedIsList(exts, false, [], false);
    h := ClientHello([0, 0], body[..34], sessionId, ciphers, compression, es, rest, after, []);
    assert body == body[..34] + body[34..];
  }

  /**
   * A byte string is accepted with a result exactly when it is a ClientHello whose extensions carry
   * that result: in any order, with any session id, cipher suites and compression methods.
   */
  lemma {:induction false} ParseExactly(raw: Text, r: Result)
    ensures Parse(raw) == (r, Complete) <==>
            exists h :: ValidHello(h) && raw == HelloBytes(h) && Accepts(h.extensions, r)
  {
    hide ValidHello, HelloBytes, Accepts;
    if Parse(raw) == (r, Complete) {
      var h := HelloExists(raw, r);
    }
    forall h | ValidHello(h) && raw == HelloBytes(h) && Accepts(h.extensions, r) ensures Parse(raw) == (r, Complete) {
      ParseOfHello(h);
      JudgeIsAccepts(h.extensions, r);
    }
  }

  lemma {:induction false} JudgeIsAccepts(es: seq<Ext>, r: Result)
    ensures Judge(es, false, [], false) == Some(r) <==> Accepts(es, r)
  {
    JudgeAccepts(es, false, [], false, r);
  }

  /** The bytes of an accepted record are those of a handshake message. */
  lemma {:induction false} RecordPieces(record: Text, m: nat)
    requires 4 + m <= |record| && m == U24At(record, 1)
    ensures record == [record[0]] + ([m / 0x1_0000] + U16(m % 0x1_0000)) + record[4..4 + m] + record[4 + m..]
  {
    U16OfSlice(record, 2);
    assert m / 0x1_0000 == record[1] && m % 0x1_0000 == U16At(record, 2);
    assert record == [record[0]] + ([record[1]] + record[2..4]) + record[4..4 + m] + record[4 + m..];
  }

  lemma {:induction false} RecordExists(record: Text) returns (h: ClientHello)
    requires Handshake(record).Some? && |record| <= 65535
    ensures |h.versionAndRandom| == 34
    ensures Fits(h.sessionId, 255) && Fits(h.ciphers, 65535) && Fits(h.compression, 255)
    ensures ValidExts(h.extensions) && Fits(ExtsBytes(h.extensions), 65535)
    ensures record == RecordBytes(h)
  {
    hide Hello, BodyBytes;
    var m := U24At(record, 1);
    var body := record[4..4 + m];
    h := BodyExists(body, record[4 + m..]);
    RecordPieces(record, m);
  }

  lemma {:induction false} HelloExists(raw: Text, r: Result) returns (h: ClientHello)
    requires Parse(raw) == (r, Complete)
    ensures ValidHello(h) && raw == HelloBytes(h) && Accepts(h.extensions, r)
  {
    hide Handshake, RecordBytes, Accepts, Judge;
    var n: int := U16At(raw, 3);
    var record := raw[5..5 + n];
    var inner := RecordExists(record);
    h := inner.(recordVersion := raw[1..3], afterRecord := raw[5 + n..]);
    SameRecord(inner, h);
    U16OfSlice(raw, 3);
    assert raw == [raw[0]] + raw[1..3] + raw[3..5] + (record + raw[5 + n..]);
    ParseOfHello(h);
    JudgeIsAccepts(h.extensions, r);
  }

  lemma {:induction false} SameRecord(a: ClientHello, b: ClientHello)
    requires Fits(a.sessionId, 255) && Fits(a.ciphers, 65535) && Fits(a.compression, 255)
    requires ValidExts(a.extensions) && Fits(ExtsBytes(a.extensions), 65535)
    requires b == a.(recordVersion := b.recordVersion, afterRecord := b.afterRecord)
    ensures RecordBytes(a) == RecordBytes(b)
  {
  }

  /** The domain of a complete result is the normalized host_name of its one server_name extension. */
  lemma {:induction false} DomainIsHostName(raw: Text) returns (h: ClientHello, i: nat, l: NameList)
    requires Parse(raw).1 == Complete && Parse(raw).0.domain != []
    ensures ValidHello(h) && raw == HelloBytes(h) && i < |h.extensions|
    ensures forall j :: 0 <= j < |h.extensions| ==> (h.extensions[j].kind == SERVER_NAME <==> j == i)
    ensures ValidNames(l) && Fits(NamesBytes(l), 65535) && h.extensions[i].body == U16(|NamesBytes(l)|) + NamesBytes(l)
    ensures Normalize(l.host) == Some(Parse(raw).0.domain)
  {
    hide ValidHello, HelloBytes, Normalize, ValidNames, NamesBytes, FirstHostName, Parse;
    h := HelloExists(raw, Parse(raw).0);
    i :| 0 <= i < |h.extensions| && h.extensions[i].kind == SERVER_NAME;
    var body := h.extensions[i].body;
    l := HostNameExists(body[2..]);
    U16OfSlice(body, 0);
    assert body == body[0..2] + body[2..];
  }

  lemma {:induction false} ServerNameOfList(l: NameList)
    requires ValidNames(l) && Fits(NamesBytes(l), 65535)
    ensures ServerName(U16(|NamesBytes(l)|) + NamesBytes(l)) == match Normalize(l.host) case Some(d) => d case None => []
  {
    hide Normalize, NamesBytes, FirstHostName;
    var names := NamesBytes(l);
    var s := U16(|names|) + names;
    assert s == [] + U16(|names|) + names;
    U16InContext([], |names|, names);
    assert s[2..] == names;
    HostNameFound(l);
  }

  /** Serializing a ClientHello with one server_name extension and parsing it returns its normalized host_name. */
  lemma {:induction false} SerializedHelloParses(h: ClientHello, i: nat, l: NameList)
    requires ValidHello(h) && i < |h.extensions|
    requires forall j :: 0 <= j < |h.extensions| ==> (h.extensions[j].kind == SERVER_NAME <==> j == i)
    requires ValidNames(l) && Fits(NamesBytes(l), 65535) && h.extensions[i].body == U16(|NamesBytes(l)|) + NamesBytes(l)
    requires Normalize(l.host).Some?
    ensures Parse(HelloBytes(h)) ==
            (Result(Normalize(l.host).value, Tls, true, exists j :: 0 <= j < |h.extensions| && h.extensions[j].kind == ENCRYPTED_CLIENT_HELLO),
             Complete)
  {
    hide ValidHello, HelloBytes, ValidNames, NamesBytes, ServerName, Parse, Judge;
    var r := Result(Normalize(l.host).value, Tls, true,
                    exists j :: 0 <= j < |h.extensions| && h.extensions[j].kind == ENCRYPTED_CLIENT_HELLO);
    ServerNameOfList(l);
    JudgeIsAccepts(h.extensions, r);
    ParseOfHello(h);
  }

  /** The record length is the 16 bits at byte 3, high byte first: what is missing, refused and read follows from it. */
  lemma {:induction false} RecordLength(raw: Text)
    requires |raw| >= 5 && raw[0] == 22
    ensures var n := 256 * (raw[3] as int) + raw[4];
            && (Parse(raw).1 == Incomplete <==> n >= 4 && |raw| < 5 + n)
            && (n < 4 ==> Parse(raw).1 == Invalid)
            && (Parse(raw).1 == Complete ==> |raw| >= 9 && 0x1_0000 * (raw[6] as int) + 256 * (raw[7] as int) + raw[8] <= n - 4)
  {
    hide Hello;
  }
}
