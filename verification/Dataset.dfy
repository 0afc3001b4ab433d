/** internal/dataset/format.go: the checksummed binary form of the China domain and IPv4 lists. */
module Datasets {
  import opened Addresses
  import opened Bytes
  import opened Domains

  datatype Domain = Domain(name: Text, exact: bool)
  datatype Data = Data(domains: seq<Domain>, prefixes: seq<Prefix>)

  /** SHA-256 is any function to 32 bytes. */
  type Digest = s: Text | |s| == 32 witness seq(32, _ => 0)
  type Hash = Text -> Digest

  const MAGIC: Text := [72, 50, 82, 68, 65, 84, 65, 49]

  predicate ValidDomain(d: Domain)
  {
    1 <= |d.name| <= 65535 && forall i :: 0 <= i < |d.name| ==> NameByte(d.name[i])
  }

  ghost predicate ValidData(data: Data)
  {
    && |data.domains| < 0x1_0000_0000 && |data.prefixes| < 0x1_0000_0000
    && (forall i :: 0 <= i < |data.domains| ==> ValidDomain(data.domains[i]))
    && (forall i :: 0 <= i < |data.prefixes| ==> data.prefixes[i].Valid4())
  }

  // ----- The format -----

  function DomainBytes(d: Domain): (r: Text)
    requires ValidDomain(d)
  {
    [if d.exact then 1 else 0] + U16(|d.name|) + d.name
  }

  function DomainsBytes(ds: seq<Domain>): (r: Text)
    requires forall i :: 0 <= i < |ds| ==> ValidDomain(ds[i])
  {
    if ds == [] then [] else DomainBytes(ds[0]) + DomainsBytes(ds[1..])
  }

  function PrefixBytes(p: Prefix): (r: Text)
    requires p.Valid4()
    ensures |r| == 5
  {
    U32(p.addr.value) + [p.bits]
  }

  function PrefixesBytes(ps: seq<Prefix>): (r: Text)
    requires forall i :: 0 <= i < |ps| ==> ps[i].Valid4()
  {
    if ps == [] then [] else PrefixBytes(ps[0]) + PrefixesBytes(ps[1..])
  }

  ghost function Payload(data: Data): (r: Text)
    requires ValidData(data)
  {
    MAGIC + (U32(|data.domains|) + (DomainsBytes(data.domains) + (U32(|data.prefixes|) + PrefixesBytes(data.prefixes))))
  }

  ghost function Encode(sha: Hash, data: Data): (r: Text)
    requires ValidData(data)
  {
    Payload(data) + sha(Payload(data))
  }

  // ----- Write -----

  lemma {:induction false} DomainsAppend(ds: seq<Domain>, d: Domain)
    requires ValidDomain(d) && forall i :: 0 <= i < |ds| ==> ValidDomain(ds[i])
    ensures DomainsBytes(ds + [d]) == DomainsBytes(ds) + DomainBytes(d)
  {
    if ds == [] {
      assert (ds + [d])[1..] == [];
    } else {
      assert (ds + [d])[1..] == ds[1..] + [d];
      DomainsAppend(ds[1..], d);
    }
  }

  lemma {:induction false} PrefixesAppend(ps: seq<Prefix>, p: Prefix)
    requires p.Valid4() && forall i :: 0 <= i < |ps| ==> ps[i].Valid4()
    ensures PrefixesBytes(ps + [p]) == PrefixesBytes(ps) + PrefixBytes(p)
  {
    if ps == [] {
      assert (ps + [p])[1..] == [];
    } else {
      assert (ps + [p])[1..] == ps[1..] + [p];
      PrefixesAppend(ps[1..], p);
    }
  }

  method WriteDomains(ds: seq<Domain>) returns (ok: bool, buffer: Text)
    ensures ok <==> forall i :: 0 <= i < |ds| ==> ValidDomain(ds[i])
    ensures ok ==> buffer == DomainsBytes(ds)
  {
    buffer := [];
    for i := 0 to |ds|
      invariant forall k :: 0 <= k < i ==> ValidDomain(ds[k])
      invariant buffer == DomainsBytes(ds[..i])
    {
      var domain := ds[i];
      if !ValidDomain(domain) {
        return false, buffer;
      }
      DomainsAppend(ds[..i], domain);
      assert ds[..i + 1] == ds[..i] + [domain];
      buffer := buffer + ([if domain.exact then 1 else 0] + U16(|domain.name|) + domain.name);
    }
    ok := true;
    assert ds[..|ds|] == ds;
  }

  method WritePrefixes(ps: seq<Prefix>) returns (ok: bool, buffer: Text)
    ensures ok <==> forall i :: 0 <= i < |ps| ==> ps[i].Valid4()
    ensures ok ==> buffer == PrefixesBytes(ps)
  {
    buffer := [];
    for i := 0 to |ps|
      invariant forall k :: 0 <= k < i ==> ps[k].Valid4()
      invariant buffer == PrefixesBytes(ps[..i])
    {
      var prefix := ps[i];
      if !prefix.Valid4() {
        return false, buffer;
      }
      PrefixesAppend(ps[..i], prefix);
      assert ps[..i + 1] == ps[..i] + [prefix];
      buffer := buffer + (U32(prefix.addr.value) + [prefix.bits]);
    }
    ok := true;
    assert ps[..|ps|] == ps;
  }

  /** A writer that takes `room` more bytes and then fails; `written` is what it has taken. */
  method Put(room: nat, written: Text, bytes: Text) returns (ok: bool, r: Text)
    requires |written| <= room
    ensures ok <==> |written + bytes| <= room
    ensures r == (written + bytes)[..if ok then |written + bytes| else room]
  {
    ok := |written| + |bytes| <= room;
    r := if ok then written + bytes else written + bytes[..room - |written|];
  }

  /** Refuses exactly invalid data and a writer without room; the writer holds a prefix of payload and checksum. */
  method Write(sha: Hash, data: Data, room: nat) returns (ok: bool, written: Text)
    ensures ok <==> ValidData(data) && |Encode(sha, data)| <= room
    ensures ok ==> written == Encode(sha, data)
    ensures !ok && ValidData(data) ==> written == Encode(sha, data)[..room]
    ensures !ValidData(data) ==> written == []
  {
    hide DomainsBytes, PrefixesBytes, ValidDomain, U32;
    if |data.domains| > 0xffff_ffff || |data.prefixes| > 0xffff_ffff {
      return false, [];
    }
    var domains, prefixes;
    ok, domains := WriteDomains(data.domains);
    if !ok {
      return false, [];
    }
    ok, prefixes := WritePrefixes(data.prefixes);
    if !ok {
      return false, [];
    }
    var payload := MAGIC + U32(|data.domains|) + domains + U32(|data.prefixes|) + prefixes;
    assert payload == Payload(data);
    var sum := sha(payload);
    hide Payload;
    assert Encode(sha, data) == payload + sum && [] + payload == payload;
    ok, written := Put(room, [], payload);
    if !ok {
      assert (payload + sum)[..room] == payload[..room];
      return false, written;
    }
    ok, written := Put(room, written, sum);
  }

  // ----- Read, as a recursive descent -----

  ghost function ParseDomain(s: Text): (r: Option<(Domain, Text)>)
    ensures r.Some? ==> |r.value.1| < |s|
  {
    if |s| < 3 then None
    else
      var n := U16At(s, 1);
      if s[0] > 1 || n == 0 || 3 + n > |s| then None
      else
        var d := Domain(s[3..3 + n], s[0] == 1);
        if ValidDomain(d) then Some((d, s[3 + n..])) else None
  }

  ghost function ParseDomains(s: Text, n: nat): Option<(seq<Domain>, Text)>
    decreases n
  {
    if n == 0 then Some(([], s))
    else
      match ParseDomain(s)
      case None => None
      case Some((d, rest)) =>
        match ParseDomains(rest, n - 1)
        case None => None
        case Some((ds, tail)) => Some(([d] + ds, tail))
  }

  ghost function ParsePrefix(s: Text): Option<(Prefix, Text)>
  {
    if |s| < 5 || s[4] > 32 then None else Some((Prefix(IPv4(U32At(s, 0)), s[4]), s[5..]))
  }

  ghost function ParsePrefixes(s: Text, n: nat): Option<(seq<Prefix>, Text)>
    decreases n
  {
    if n == 0 then Some(([], s))
    else
      match ParsePrefix(s)
      case None => None
      case Some((p, rest)) =>
        match ParsePrefixes(rest, n - 1)
        case None => None
        case Some((ps, tail)) => Some(([p] + ps, tail))
  }

  ghost function ParseLists(s: Text): Option<Data>
  {
    if |s| < 4 then None
    else
      match ParseDomains(s[4..], U32At(s, 0))
      case None => None
      case Some((ds, rest)) =>
        if |rest| < 4 then None
        else
          match ParsePrefixes(rest[4..], U32At(rest, 0))
          case None => None
          case Some((ps, tail)) => if tail == [] then Some(Data(ds, ps)) else None
  }

  ghost function Decode(sha: Hash, raw: Text): Option<Data>
  {
    if |raw| < 48 then None
    else
      var payload := raw[..|raw| - 32];
      if sha(payload) != raw[|raw| - 32..] || payload[..8] != MAGIC then None else ParseLists(payload[8..])
  }

  // ----- Encode and Decode undo each other -----

  lemma {:induction false} DomainRoundTrip(d: Domain, rest: Text)
    requires ValidDomain(d)
    ensures ParseDomain(DomainBytes(d) + rest) == Some((d, rest))
  {
  }

  lemma {:induction false} DomainExact(s: Text)
    requires ParseDomain(s).Some?
    ensures var (d, rest) := ParseDomain(s).value;
            ValidDomain(d) && s == DomainBytes(d) + rest
  {
  }

  lemma {:induction false} DomainsRoundTrip(ds: seq<Domain>, rest: Text)
    requires forall i :: 0 <= i < |ds| ==> ValidDomain(ds[i])
    ensures ParseDomains(DomainsBytes(ds) + rest, |ds|) == Some((ds, rest))
  {
    hide ParseDomain, DomainBytes;
    if ds == [] {
      assert DomainsBytes(ds) + rest == rest;
    } else {
      var tail := DomainsBytes(ds[1..]) + rest;
      assert DomainsBytes(ds) + rest == DomainBytes(ds[0]) + tail;
      DomainRoundTrip(ds[0], tail);
      DomainsRoundTrip(ds[1..], rest);
      assert [ds[0]] + ds[1..] == ds;
    }
  }

  lemma {:induction false} DomainsExact(s: Text, n: nat)
    requires ParseDomains(s, n).Some?
    ensures var (ds, rest) := ParseDomains(s, n).value;
            && |ds| == n && (forall i :: 0 <= i < n ==> ValidDomain(ds[i]))
            && s == DomainsBytes(ds) + rest
    decreases n
  {
    hide ParseDomain, DomainBytes;
    if n == 0 {
    } else {
      var (d, rest) := ParseDomain(s).value;
      var (ds, tail) := ParseDomains(rest, n - 1).value;
      DomainExact(s);
      DomainsExact(rest, n - 1);
      assert ([d] + ds)[1..] == ds;
      assert s == DomainsBytes([d] + ds) + tail;
    }
  }

  lemma {:induction false} PrefixRoundTrip(p: Prefix, rest: Text)
    requires p.Valid4()
    ensures ParsePrefix(PrefixBytes(p) + rest) == Some((p, rest))
  {
  }

  lemma {:induction false} PrefixExact(s: Text)
    requires ParsePrefix(s).Some?
    ensures var (p, rest) := ParsePrefix(s).value;
            p.Valid4() && s == PrefixBytes(p) + rest
  {
    U32OfSlice(s, 0);
    assert s == s[0..4] + [s[4]] + s[5..];
  }

  lemma {:induction false} PrefixesRoundTrip(ps: seq<Prefix>, rest: Text)
    requires forall i :: 0 <= i < |ps| ==> ps[i].Valid4()
    ensures ParsePrefixes(PrefixesBytes(ps) + rest, |ps|) == Some((ps, rest))
  {
    hide ParsePrefix, PrefixBytes;
    if ps == [] {
      assert PrefixesBytes(ps) + rest == rest;
    } else {
      var tail := PrefixesBytes(ps[1..]) + rest;
      assert PrefixesBytes(ps) + rest == PrefixBytes(ps[0]) + tail;
      PrefixRoundTrip(ps[0], tail);
      PrefixesRoundTrip(ps[1..], rest);
      assert [ps[0]] + ps[1..] == ps;
    }
  }

  lemma {:induction false} PrefixesExact(s: Text, n: nat)
    requires ParsePrefixes(s, n).Some?
    ensures var (ps, rest) := ParsePrefixes(s, n).value;
            && |ps| == n && (forall i :: 0 <= i < n ==> ps[i].Valid4())
            && s == PrefixesBytes(ps) + rest
    decreases n
  {
    hide ParsePrefix, PrefixBytes;
    if n == 0 {
    } else {
      var (p, rest) := ParsePrefix(s).value;
      var (ps, tail) := ParsePrefixes(rest, n - 1).value;
      PrefixExact(s);
      PrefixesExact(rest, n - 1);
      assert ([p] + ps)[1..] == ps;
      assert s == PrefixesBytes([p] + ps) + tail;
    }
  }

  lemma {:induction false} CountInFront(n: u32, rest: Text)
    ensures var s := U32(n) + rest; U32At(s, 0) == n && s[4..] == rest
  {
  }

  lemma {:induction false} ListsRoundTrip(data: Data)
    requires ValidData(data)
    ensures ParseLists(Payload(data)[8..]) == Some(data)
  {
    var back := U32(|data.prefixes|) + PrefixesBytes(data.prefixes);
    var front := DomainsBytes(data.domains) + back;
    assert Payload(data)[8..] == U32(|data.domains|) + front;
    CountInFront(|data.domains|, front);
    DomainsRoundTrip(data.domains, back);
    CountInFront(|data.prefixes|, PrefixesBytes(data.prefixes));
    PrefixesRoundTrip(data.prefixes, []);
    assert PrefixesBytes(data.prefixes) + [] == PrefixesBytes(data.prefixes);
  }

  lemma {:induction false} ListsExact(s: Text)
    requires ParseLists(s).Some?
    ensures var data := ParseLists(s).value; ValidData(data) && MAGIC + s == Payload(data)
  {
    hide ParseDomains, ParsePrefixes, DomainsBytes, PrefixesBytes, U32, U32At;
    var (ds, rest) := ParseDomains(s[4..], U32At(s, 0)).value;
    DomainsExact(s[4..], U32At(s, 0));
    PrefixesExact(rest[4..], U32At(rest, 0));
    U32OfSlice(s, 0);
    U32OfSlice(rest, 0);
    var (ps, tail) := ParsePrefixes(rest[4..], U32At(rest, 0)).value;
    assert rest == U32(|ps|) + PrefixesBytes(ps) by {
      assert rest == rest[..4] + rest[4..];
      assert PrefixesBytes(ps) + [] == PrefixesBytes(ps);
    }
    assert s == s[..4] + s[4..];
  }

  /** The accepted byte strings are exactly the encodings of valid data, each of its own data. */
  lemma {:induction false} DecodeExactly(sha: Hash, raw: Text, data: Data)
    ensures Decode(sha, raw) == Some(data) <==> ValidData(data) && raw == Encode(sha, data)
  {
    if Decode(sha, raw) == Some(data) {
      var payload := raw[..|raw| - 32];
      ListsExact(payload[8..]);
      assert payload == MAGIC + payload[8..];
      assert raw == payload + raw[|raw| - 32..];
    }
    if ValidData(data) && raw == Encode(sha, data) {
      var payload := Payload(data);
      assert raw[..|raw| - 32] == payload && raw[|raw| - 32..] == sha(payload);
      assert payload[..8] == MAGIC;
      ListsRoundTrip(data);
    }
  }

  // ----- Read -----

  ghost function DomainsAfter(done: seq<Domain>, s: Text, n: nat): Option<(seq<Domain>, Text)>
  {
    match ParseDomains(s, n)
    case None => None
    case Some((ds, rest)) => Some((done + ds, rest))
  }

  ghost function PrefixesAfter(done: seq<Prefix>, s: Text, n: nat): Option<(seq<Prefix>, Text)>
  {
    match ParsePrefixes(s, n)
    case None => None
    case Some((ps, rest)) => Some((done + ps, rest))
  }

  /** With nothing done, or nothing left to do. */
  lemma {:induction false} NoDomains(s: Text, n: nat, done: seq<Domain>, rest: Text)
    ensures DomainsAfter([], s, n) == ParseDomains(s, n)
    ensures DomainsAfter(done, rest, 0) == Some((done, rest))
  {
    assert done + [] == done;
    match ParseDomains(s, n) {
      case None =>
      case Some((ds, _)) => assert [] + ds == ds;
    }
  }

  lemma {:induction false} NoPrefixes(s: Text, n: nat, done: seq<Prefix>, rest: Text)
    ensures PrefixesAfter([], s, n) == ParsePrefixes(s, n)
    ensures PrefixesAfter(done, rest, 0) == Some((done, rest))
  {
    assert done + [] == done;
    match ParsePrefixes(s, n) {
      case None =>
      case Some((ps, _)) => assert [] + ps == ps;
    }
  }

  lemma {:induction false} DomainStep(done: seq<Domain>, s: Text, n: nat)
    requires n > 0
    ensures DomainsAfter(done, s, n) == match ParseDomain(s)
                                        case None => None
                                        case Some((d, rest)) => DomainsAfter(done + [d], rest, n - 1)
  {
    match ParseDomain(s) {
      case None =>
      case Some((d, rest)) =>
        match ParseDomains(rest, n - 1) {
          case None =>
          case Some((ds, tail)) => assert done + ([d] + ds) == done + [d] + ds;
        }
    }
  }

  lemma {:induction false} PrefixStep(done: seq<Prefix>, s: Text, n: nat)
    requires n > 0
    ensures PrefixesAfter(done, s, n) == match ParsePrefix(s)
                                         case None => None
                                         case Some((p, rest)) => PrefixesAfter(done + [p], rest, n - 1)
  {
    match ParsePrefix(s) {
      case None =>
      case Some((p, rest)) =>
        match ParsePrefixes(rest, n - 1) {
          case None =>
          case Some((ps, tail)) => assert done + ([p] + ps) == done + [p] + ps;
        }
    }
  }

  method ReadDomains(payload: Text, start: nat, count: nat) returns (ok: bool, domains: seq<Domain>, offset: nat)
    requires start <= |payload|
    ensures offset <= |payload|
    ensures ParseDomains(payload[start..], count) == if ok then Some((domains, payload[offset..])) else None
  {
    hide DomainsAfter, ParseDomains;
    domains, offset := [], start;
    NoDomains(payload[start..], count, domains, payload[offset..]);
    for i := 0 to count
      invariant offset <= |payload|
      invariant ParseDomains(payload[start..], count) == DomainsAfter(domains, payload[offset..], count - i)
    {
      ghost var s := payload[offset..];
      DomainStep(domains, s, count - i);
      if offset + 3 > |payload| {
        return false, domains, offset;
      }
      var kind := payload[offset];
      offset := offset + 1;
      var length := U16At(payload, offset);
      offset := offset + 2;
      if (kind != 0 && kind != 1) || length == 0 || offset + length > |payload| {
        return false, domains, offset;
      }
      var domain := Domain(payload[offset..offset + length], kind == 1);
      offset := offset + length;
      assert U16At(s, 1) == length && s[3..3 + length] == domain.name && s[3 + length..] == payload[offset..];
      if !ValidDomain(domain) {
        return false, domains, offset;
      }
      domains := domains + [domain];
    }
    ok := true;
    NoDomains(payload[start..], count, domains, payload[offset..]);
  }

  method ReadPrefixes(payload: Text, start: nat, count: nat) returns (ok: bool, prefixes: seq<Prefix>, offset: nat)
    requires start <= |payload|
    ensures offset <= |payload|
    ensures ParsePrefixes(payload[start..], count) == if ok then Some((prefixes, payload[offset..])) else None
  {
    hide PrefixesAfter, ParsePrefixes;
    prefixes, offset := [], start;
    NoPrefixes(payload[start..], count, prefixes, payload[offset..]);
    for i := 0 to count
      invariant offset <= |payload|
      invariant ParsePrefixes(payload[start..], count) == PrefixesAfter(prefixes, payload[offset..], count - i)
    {
      ghost var s := payload[offset..];
      PrefixStep(prefixes, s, count - i);
      if offset + 5 > |payload| {
        return false, prefixes, offset;
      }
      var addr := IPv4(U32At(payload, offset));
      var bits := payload[offset + 4];
      offset := offset + 5;
      assert U32At(s, 0) == addr.value && s[4] == bits && s[5..] == payload[offset..];
      if bits > 32 {
        return false, prefixes, offset;
      }
      prefixes := prefixes + [Prefix(addr, bits)];
    }
    ok := true;
    NoPrefixes(payload[start..], count, prefixes, payload[offset..]);
  }

  /** Accepts exactly the encodings of valid data, and returns the data encoded. */
  method Read(sha: Hash, raw: Text, failed: bool) returns (r: Option<Data>)
    ensures r.Some? ==> !failed && ValidData(r.value) && raw == Encode(sha, r.value)
    ensures forall data :: !failed && ValidData(data) && raw == Encode(sha, data) ==> r == Some(data)
  {
    if failed {
      return None;
    }
    r := ReadRaw(sha, raw);
    forall data ensures r == Some(data) <==> ValidData(data) && raw == Encode(sha, data) {
      DecodeExactly(sha, raw, data);
    }
  }

  method ReadRaw(sha: Hash, raw: Text) returns (r: Option<Data>)
    ensures r == Decode(sha, raw)
  {
    if |raw| < |MAGIC| + 4 + 4 + 32 {
      return None;
    }
    var payload, expected := raw[..|raw| - 32], raw[|raw| - 32..];
    if sha(payload) != expected {
      return None;
    }
    if payload[..|MAGIC|] != MAGIC {
      return None;
    }
    ghost var s := payload[8..];
    var domainCount := U32At(payload, 8);
    assert U32At(s, 0) == domainCount && s[4..] == payload[12..];
    var ok, domains, offset := ReadDomains(payload, 12, domainCount);
    if !ok || offset + 4 > |payload| {
      return None;
    }
    ghost var rest := payload[offset..];
    var prefixCount := U32At(payload, offset);
    assert U32At(rest, 0) == prefixCount && rest[4..] == payload[offset + 4..];
    var prefixes;
    ok, prefixes, offset := ReadPrefixes(payload, offset + 4, prefixCount);
    if !ok || offset != |payload| {
      return None;
    }
    r := Some(Data(domains, prefixes));
  }
}
