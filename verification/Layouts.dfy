/** The wire and file formats byte by byte, with every number written out most significant byte first. */
module Layouts {
  import opened Addresses
  import opened Bytes
  import opened Datasets
  import D = Domains
  import T = SniffTls

  function Be16(n: u16): (r: Text)
  {
    [n / 0x100, n % 0x100]
  }

  function Be32(n: u32): (r: Text)
  {
    [n / 0x100_0000, n / 0x1_0000 % 0x100, n / 0x100 % 0x100, n % 0x100]
  }

  /** The bytes of an ASCII string. */
  function Ascii(s: string): (r: Text)
    requires forall i :: 0 <= i < |s| ==> s[i] < '\U{80}'
  {
    seq(|s|, i requires 0 <= i < |s| => s[i] as int)
  }

  lemma {:induction false} U16IsBe16(n: u16)
    ensures U16(n) == Be16(n)
  {
  }

  lemma {:induction false} U32IsBe32(n: u32)
    ensures U32(n) == Be32(n)
  {
    U16IsBe16(n / 0x1_0000);
    U16IsBe16(n % 0x1_0000);
    assert n / 0x1_0000 / 0x100 == n / 0x100_0000 && n % 0x1_0000 / 0x100 == n / 0x100 % 0x100 && n % 0x1_0000 % 0x100 == n % 0x100;
  }

  // ----- The dataset file -----

  lemma {:induction false} MagicIsText()
    ensures MAGIC == Ascii("H2RDATA1")
  {
    var a := Ascii("H2RDATA1");
    assert |a| == 8 && forall i :: 0 <= i < 8 ==> a[i] == "H2RDATA1"[i] as int;
  }

  predicate NameChar(c: char)
  {
    'a' <= c <= 'z' || '0' <= c <= '9' || c == '.' || c == '-'
  }

  lemma {:induction false} NameByteIsChar(b: byte)
    ensures D.NameByte(b) <==> NameChar(b as char)
  {
  }

  /** Lower-case letters, digits, dots and hyphens, from one to 65535 of them. */
  lemma {:induction false} ValidDomainExactly(d: Domain)
    ensures ValidDomain(d) <==> 0 < |d.name| < 0x1_0000 && forall i :: 0 <= i < |d.name| ==> NameChar(d.name[i] as char)
  {
    hide D.NameByte, NameChar;
    forall i | 0 <= i < |d.name| ensures D.NameByte(d.name[i]) <==> NameChar(d.name[i] as char) {
      NameByteIsChar(d.name[i]);
    }
  }

  /** A domain entry: 1 for an exact name and 0 for a suffix, the length, the name. */
  lemma {:induction false} DomainEntry(d: Domain)
    requires ValidDomain(d)
    ensures DomainBytes(d) == [if d.exact then 1 else 0] + Be16(|d.name|) + d.name
  {
    U16IsBe16(|d.name|);
  }

  /** A prefix entry: the four octets of the address, the number of bits. */
  lemma {:induction false} PrefixEntry(p: Prefix)
    requires p.Valid4()
    ensures PrefixBytes(p) == Be32(p.addr.value) + [p.bits]
  {
    U32IsBe32(p.addr.value);
  }

  /** The file: magic, the count and the entries of the domains, the same of the prefixes, and the digest of all that. */
  lemma {:induction false} DatasetFile(sha: Hash, data: Data)
    requires ValidData(data)
    ensures var payload := Ascii("H2RDATA1") + Be32(|data.domains|) + DomainsBytes(data.domains) +
                           Be32(|data.prefixes|) + PrefixesBytes(data.prefixes);
            Encode(sha, data) == payload + sha(payload)
  {
    hide DomainsBytes, PrefixesBytes, U32, Be32;
    MagicIsText();
    U32IsBe32(|data.domains|);
    U32IsBe32(|data.prefixes|);
    var payload := Ascii("H2RDATA1") + Be32(|data.domains|) + DomainsBytes(data.domains) +
                   Be32(|data.prefixes|) + PrefixesBytes(data.prefixes);
    assert Payload(data) == payload;
  }

  // ----- The ClientHello -----

  /** Sections 4.1.2 and 5.1 of RFC 8446: a handshake record, a client_hello, its four vectors. */
  lemma {:induction false} HelloLayout(h: T.ClientHello)
    requires T.ValidHello(h)
    ensures var body, exts := T.BodyBytes(h), T.ExtsBytes(h.extensions);
            && body == h.versionAndRandom + [|h.sessionId|] + h.sessionId + Be16(|h.ciphers|) + h.ciphers +
                       [|h.compression|] + h.compression + Be16(|exts|) + exts + h.afterExtensions
            && |body| < 0x1_0000
            && T.HelloBytes(h) == [22] + h.recordVersion + Be16(4 + |body| + |h.afterHandshake|) +
                                  [1, 0] + Be16(|body|) + body + h.afterHandshake + h.afterRecord
  {
    hide T.ExtsBytes, U16, Be16;
    var exts, body := T.ExtsBytes(h.extensions), T.BodyBytes(h);
    U16IsBe16(|h.ciphers|);
    U16IsBe16(|exts|);
    BodyLayout(h, exts, body);
    var record := T.RecordBytes(h);
    assert |record| == 4 + |body| + |h.afterHandshake| by { LengthOf16(); }
    U16IsBe16(|body|);
    U16IsBe16(|record|);
    assert |body| / 0x1_0000 % 256 == 0 && |body| % 0x1_0000 == |body|;
    assert record == [1, 0] + Be16(|body|) + body + h.afterHandshake;
  }

  lemma {:induction false} LengthOf16()
    ensures forall n: u16 :: |U16(n)| == 2
  {
  }

  lemma {:induction false} BodyLayout(h: T.ClientHello, exts: Text, body: Text)
    requires T.ValidHello(h) && exts == T.ExtsBytes(h.extensions) && body == T.BodyBytes(h)
    ensures body == h.versionAndRandom + [|h.sessionId|] + h.sessionId + U16(|h.ciphers|) + h.ciphers +
                    [|h.compression|] + h.compression + U16(|exts|) + exts + h.afterExtensions
  {
    hide T.ExtsBytes, U16;
  }

  /** The extensions the parser looks for: server_name is 0 and encrypted_client_hello 0xfe0d. */
  lemma {:induction false} ExtensionLayout(e: T.Ext)
    requires T.Fits(e.body, 65535)
    ensures T.ExtBytes(e) == Be16(e.kind) + Be16(|e.body|) + e.body
    ensures e.kind == T.SERVER_NAME <==> T.ExtBytes(e)[..2] == [0x00, 0x00]
    ensures e.kind == T.ENCRYPTED_CLIENT_HELLO <==> T.ExtBytes(e)[..2] == [0xfe, 0x0d]
  {
    U16IsBe16(e.kind);
    U16IsBe16(|e.body|);
    assert T.ExtBytes(e)[..2] == Be16(e.kind);
    assert e.kind == 256 * (Be16(e.kind)[0] as int) + Be16(e.kind)[1];
  }
}
