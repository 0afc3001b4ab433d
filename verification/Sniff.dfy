/** internal/sniff/sniff.go: peeking at a connection until its first bytes decide the protocol. */
module Sniff {
  import opened Bytes
  import opened SniffTls
  import H = SniffHttp

  function Verdict(raw: Text): (r: (Result, ParseState))
  {
    if raw == [] then (NOTHING, Incomplete)
    else if raw[0] == 22 then SniffTls.Parse(raw)
    else H.Parse(raw)
  }

  /** Sniffing verdicts are stable: once decided, appending any bytes changes nothing. */
  lemma {:induction false} VerdictStable(raw: Text, more: Text)
    requires Verdict(raw).1 != Incomplete
    ensures Verdict(raw + more) == Verdict(raw)
  {
    hide SniffTls.Parse, H.Parse;
    assert (raw + more)[0] == raw[0];
    if raw[0] == 22 {
      SniffTls.ParseStable(raw, more);
    } else {
      H.ParseStable(raw, more);
    }
  }

  method Parse(raw: Text) returns (result: Result, state: ParseState)
    ensures (result, state) == Verdict(raw)
  {
    hide SniffTls.Parse, H.Parse;
    if |raw| == 0 {
      return NOTHING, Incomplete;
    }
    if raw[0] == 22 {
      result, state := ParseTLS(raw);
    } else {
      result, state := H.ParseHTTP(raw);
    }
  }

  // ----- bufio.Reader over a connection -----

  function Concat(chunks: seq<Text>): Text
  {
    if chunks == [] then [] else chunks[0] + Concat(chunks[1..])
  }

  function Min(a: int, b: int): int
  {
    if a < b then a else b
  }

  /** A buffered reader; `source` is what the connection will still deliver, read by read, before it fails. */
  class BufferedReader {
    const size: nat
    var buffer: Text
    var source: seq<Text>

    constructor (wanted: nat, chunks: seq<Text>)
      ensures size >= wanted && buffer == [] && source == chunks && Valid()
    {
      size := if wanted < 16 then 16 else wanted;
      buffer, source := [], chunks;
    }

    ghost predicate Valid()
      reads this
    {
      |buffer| <= size
    }

    /** Everything a consumer can still read. */
    ghost function Unread(): Text
      reads this
    {
      buffer + Concat(source)
    }

    /** One read into the free part of the buffer. */
    method Fill()
      requires Valid() && |buffer| < size && source != []
      modifies this`buffer, this`source
      ensures Valid() && Unread() == old(Unread())
      ensures |source| < |old(source)| || (|source| == |old(source)| && |buffer| > |old(buffer)|)
    {
      var chunk, room := source[0], size - |buffer|;
      if |chunk| <= room {
        buffer, source := buffer + chunk, source[1..];
      } else {
        buffer, source := buffer + chunk[..room], [chunk[room..]] + source[1..];
        assert chunk == chunk[..room] + chunk[room..];
        assert source[1..] == old(source)[1..];
      }
    }

    /** Returns up to `n` bytes without consuming any; fails if the connection ended before them. */
    method Peek(n: nat) returns (raw: Text, failed: bool)
      requires Valid() && n <= size
      modifies this`buffer, this`source
      ensures Valid() && Unread() == old(Unread())
      ensures raw == Unread()[..Min(n, |Unread()|)] && failed == (|Unread()| < n)
    {
      while |buffer| < n && |buffer| < size && source != []
        invariant Valid() && Unread() == old(Unread())
        decreases |source|, size - |buffer|
      {
        Fill();
      }
      failed := |buffer| < n;
      raw := buffer[..if failed then |buffer| else n];
    }
  }

  // ----- Peek -----

  /** A prefix that is decided, or as long as the limit, stands for everything up to the limit. */
  lemma {:induction false} SamePrefix(all: Text, raw: Text, limit: nat)
    requires |raw| <= limit && raw <= all && (Verdict(raw).1 != Incomplete || |raw| == limit)
    ensures Verdict(all[..Min(limit, |all|)]) == Verdict(raw)
  {
    hide Verdict;
    var whole := all[..Min(limit, |all|)];
    assert whole == raw + whole[|raw|..];
    if Verdict(raw).1 != Incomplete {
      VerdictStable(raw, whole[|raw|..]);
    } else {
      assert whole == raw;
    }
  }

  /** After `w` bytes of `all` the round goes on: no verdict yet, below the limit, and no failed read. */
  ghost predicate GoesOn(all: Text, limit: int, w: int)
    requires w >= 0
  {
    w <= |all| && w < limit && Verdict(all[..w]).1 == Incomplete
  }

  lemma {:induction false} RoundGoesOn(all: Text, limit: int, w: nat, raw: Text, failed: bool)
    requires w <= limit && raw == all[..Min(w, |all|)] && failed == (|all| < w)
    ensures GoesOn(all, limit, w) <==> Verdict(raw).1 == Incomplete && |raw| < limit && !failed
  {
    hide Verdict;
  }

  /** The first cancelled round comes before the bytes have decided. */
  ghost predicate CancelSeen(all: Text, limit: int, cancelled: nat -> bool)
  {
    exists w :: 1 <= w <= limit && cancelled(w) && forall v :: 1 <= v < w ==> GoesOn(all, limit, v)
  }

  lemma {:induction false} CancelMissed(all: Text, limit: int, cancelled: nat -> bool, w: nat)
    requires w >= 1 && !GoesOn(all, limit, w) && forall v :: 1 <= v <= w ==> !cancelled(v)
    ensures !CancelSeen(all, limit, cancelled)
  {
    hide GoesOn;
  }

  datatype Outcome = Sniffed(result: Result) | Rejected | Cancelled

  /**
   * Whatever the chunking, Peek returns the parse of the first bytes up to the limit, consumes
   * nothing, and never reaches its over-limit fallback; a cancelled context is reported exactly
   * when it is seen before the bytes decide. `cancelled(w)` is ctx.Err() in round `w`.
   */
  method Peek(hasConn: bool, chunks: seq<Text>, limit: int, timeout: int, deadlineSet: bool, cancelled: nat -> bool)
    returns (outcome: Outcome, reader: BufferedReader?)
    ensures outcome == Rejected <==> !hasConn || limit < 1 || timeout <= 0 || !deadlineSet
    ensures reader != null ==> reader.Valid() && reader.Unread() == Concat(chunks)
    ensures outcome != Rejected ==> reader != null && (outcome == Cancelled <==> CancelSeen(Concat(chunks), limit, cancelled))
    ensures outcome.Sniffed? ==> outcome.result == Verdict(Concat(chunks)[..Min(limit, |Concat(chunks)|)]).0
  {
    hide Verdict, GoesOn, CancelSeen, Concat;
    if !hasConn || limit < 1 || timeout <= 0 {
      return Rejected, null;
    }
    reader := new BufferedReader(limit, chunks);
    if !deadlineSet {
      return Rejected, reader;
    }
    assert reader.Unread() == Concat(chunks);
    outcome := PeekRounds(reader, limit, cancelled);
  }

  /** The loop of Peek: one more byte each round. */
  method PeekRounds(reader: BufferedReader, limit: nat, cancelled: nat -> bool) returns (outcome: Outcome)
    requires reader.Valid() && 1 <= limit <= reader.size
    modifies reader
    ensures reader.Valid() && reader.Unread() == old(reader.Unread())
    ensures outcome != Rejected
    ensures outcome == Cancelled <==> CancelSeen(reader.Unread(), limit, cancelled)
    ensures outcome.Sniffed? ==> outcome.result == Verdict(reader.Unread()[..Min(limit, |reader.Unread()|)]).0
  {
    hide Verdict, GoesOn, Concat;
    ghost var all := reader.Unread();
    var wanted := 1;
    while true
      invariant 1 <= wanted <= limit && wanted <= |all| + 1
      invariant forall v :: 1 <= v < wanted ==> !cancelled(v) && GoesOn(all, limit, v)
      invariant reader.Valid() && reader.Unread() == all
      decreases limit - wanted
    {
      if cancelled(wanted) {
        return Cancelled;
      }
      if wanted > limit {
        assert false;
      }
      var raw, failed := reader.Peek(wanted);
      var result, state := Parse(raw);
      RoundGoesOn(all, limit, wanted, raw, failed);
      if state != Incomplete || |raw| >= limit {
        SamePrefix(all, raw, limit);
        CancelMissed(all, limit, cancelled, wanted);
        return Sniffed(result);
      }
      if failed {
        CancelMissed(all, limit, cancelled, wanted);
        return Sniffed(result);
      }
      wanted := wanted + 1;
    }
  }
}
