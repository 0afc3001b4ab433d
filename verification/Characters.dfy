/** The byte tables of the parsers, in terms of characters and their UTF-8 form (section 3 of RFC 3629). */
module Characters {
  import opened Bytes
  import opened Domains
  import opened SniffHttp
  import R = Hy2Reasons

  function Utf8(c: char): (r: Text)
  {
    var n := c as int;
    if n < 0x80 then [n]
    else if n < 0x800 then [0xc0 + n / 0x40, 0x80 + n % 0x40]
    else if n < 0x1_0000 then [0xe0 + n / 0x1000, 0x80 + n / 0x40 % 0x40, 0x80 + n % 0x40]
    else [0xf0 + n / 0x4_0000, 0x80 + n / 0x1000 % 0x40, 0x80 + n / 0x40 % 0x40, 0x80 + n % 0x40]
  }

  // ----- ASCII classes -----

  lemma {:induction false} MethodCharIsLetter(b: byte)
    ensures IsMethodChar(b) <==> 'A' <= (b as char) <= 'Z' || 'a' <= (b as char) <= 'z'
  {
  }

  lemma {:induction false} LowerAlnumIsClass(b: byte)
    ensures IsLowerAlnum(b) <==> 'a' <= (b as char) <= 'z' || '0' <= (b as char) <= '9'
  {
  }

  lemma {:induction false} LowerIsLetterwise(b: byte)
    ensures if 'A' <= (b as char) <= 'Z' then Lower(b) as int - 'a' as int == b as int - 'A' as int else Lower(b) == b
  {
  }

  lemma {:induction false} Separators()
    ensures [DOT] == Utf8('.') && [HYPHEN] == Utf8('-') && [COLON] == Utf8(':') && [SPACE] == Utf8(' ')
    ensures [CR] == Utf8('\r') && [LF] == Utf8('\n')
  {
  }

  // ----- Domain names -----

  predicate NameChar(c: char)
  {
    'a' <= c <= 'z' || '0' <= c <= '9' || c == '-'
  }

  /** A label of section 2.3.1 of RFC 1035, in lower case, where a digit may come first. */
  ghost predicate IsLabel(part: Text)
  {
    && 0 < |part| < 64
    && (forall i :: 0 <= i < |part| ==> NameChar(part[i] as char))
    && part[0] as char != '-' && part[|part| - 1] as char != '-'
  }

  /** Labels with dots between them. */
  ghost predicate Dotted(name: Text, labels: seq<Text>)
  {
    labels != [] && name == Join(labels, DOT) && forall i :: 0 <= i < |labels| ==> IsLabel(labels[i])
  }

  lemma {:induction false} LabelIsValid(part: Text)
    ensures IsLabel(part) <==> ValidLabel(part)
    ensures IsLabel(part) ==> DOT !in part
  {
    forall i | 0 <= i < |part| ensures NameChar(part[i] as char) <==> IsLowerAlnum(part[i]) || part[i] == HYPHEN {
      LowerAlnumIsClass(part[i]);
    }
  }

  lemma {:induction false} SplitWhole(s: Text)
    requires DOT !in s
    ensures Split(s, DOT) == [s]
  {
    if s == [] {
    } else {
      assert s[0] in s && forall b :: b in s[1..] ==> b in s;
      SplitWhole(s[1..]);
      assert s == [s[0]] + s[1..];
    }
  }

  lemma {:induction false} SplitOfDotted(labels: seq<Text>)
    requires labels != [] && forall i :: 0 <= i < |labels| ==> IsLabel(labels[i])
    ensures Split(Join(labels, DOT), DOT) == labels
  {
    hide IsLabel, Split;
    LabelIsValid(labels[0]);
    SplitWhole(labels[0]);
    if |labels| == 1 {
      assert labels == [labels[0]];
    } else {
      var rest := labels[1..];
      assert forall i :: 0 <= i < |rest| ==> rest[i] == labels[i + 1];
      SplitOfDotted(rest);
      SplitOfConcat(labels[0], DOT, Join(rest, DOT));
      assert labels == [labels[0]] + rest;
    }
  }

  /** A name is valid exactly if it is labels with dots between them and has fewer than 254 bytes. */
  lemma {:induction false} NameExactly(name: Text)
    ensures ValidName(name) <==> |name| < 254 && exists labels :: Dotted(name, labels)
  {
    hide IsLabel, ValidLabel, Split;
    var parts := Split(name, DOT);
    if ValidName(name) {
      forall i | 0 <= i < |parts| ensures IsLabel(parts[i]) {
        LabelIsValid(parts[i]);
      }
      JoinOfSplit(name, DOT);
      assert Dotted(name, parts);
    }
    if labels :| Dotted(name, labels) {
      SplitOfDotted(labels);
      forall i | 0 <= i < |labels| ensures ValidLabel(labels[i]) {
        LabelIsValid(labels[i]);
      }
      FirstLabel(labels);
    }
  }

  lemma {:induction false} FirstLabel(labels: seq<Text>)
    requires labels != [] && IsLabel(labels[0])
    ensures |Join(labels, DOT)| >= 1
  {
  }

  // ----- Runes outside ASCII that fold to ASCII letters -----

  lemma {:induction false} FoldingRunes(s: Text)
    ensures StartsDottedI(s) <==> Utf8('\U{130}') <= s
    ensures StartsKelvin(s) <==> Utf8('\U{212a}') <= s
  {
  }

  lemma {:induction false} LowerOfFoldingRunes(s: Text)
    ensures ToLower(Utf8('\U{130}') + s) == Utf8('i') + ToLower(s)
    ensures ToLower(Utf8('\U{212a}') + s) == Utf8('k') + ToLower(s)
  {
    var a, b := Utf8('\U{130}') + s, Utf8('\U{212a}') + s;
    assert a[2..] == s && b[3..] == s;
    assert StartsDottedI(a) && !StartsDottedI(b) && StartsKelvin(b);
  }

  // ----- The Host header's name -----

  /** The letter or its capital, and for `s` also the long s, U+017F. */
  predicate Folds(c: char, lower: char)
  {
    c == lower || (lower != 's' && c as int + 32 == lower as int) || (lower == 's' && (c == 'S' || c == '\U{17f}'))
  }

  /** The letter of one byte, if it folds to `lower`. */
  lemma {:induction false} ByteFolds(b: byte, lower: char) returns (c: char)
    requires 'a' <= lower <= 'z' && Lower(b) as int == lower as int
    ensures Folds(c, lower) && Utf8(c) == [b]
  {
    c := b as char;
  }

  lemma {:induction false} FoldsIsByte(c: char, lower: char)
    requires 'a' <= lower <= 'z' && Folds(c, lower)
    ensures if c == '\U{17f}' then Utf8(c) == [0xc5, 0xbf]
            else Utf8(c) == [c as int] && Lower(c as int) as int == lower as int
  {
  }

  /** `name` is the four letters of host, up to case folding. */
  ghost predicate Spelled(name: Text, h: char, o: char, s: char, t: char)
  {
    Folds(h, 'h') && Folds(o, 'o') && Folds(s, 's') && Folds(t, 't') && name == Utf8(h) + Utf8(o) + Utf8(s) + Utf8(t)
  }

  lemma {:induction false} HostIsSpelled(name: Text) returns (h: char, o: char, s: char, t: char)
    requires IsHost(name)
    ensures Spelled(name, h, o, s, t)
  {
    hide Utf8, Folds;
    h := ByteFolds(name[0], 'h');
    o := ByteFolds(name[1], 'o');
    if |name| == 4 {
      s := ByteFolds(name[2], 's');
      t := ByteFolds(name[3], 't');
      assert name == [name[0]] + [name[1]] + [name[2]] + [name[3]];
    } else {
      s := '\U{17f}';
      t := ByteFolds(name[4], 't');
      LongS();
      assert name == [name[0]] + [name[1]] + [0xc5, 0xbf] + [name[4]];
    }
  }

  lemma {:induction false} LongS()
    ensures Folds('\U{17f}', 's') && Utf8('\U{17f}') == [0xc5, 0xbf]
  {
  }

  lemma {:induction false} SpelledIsHost(name: Text, h: char, o: char, s: char, t: char)
    requires Spelled(name, h, o, s, t)
    ensures IsHost(name)
  {
    FoldsIsByte(h, 'h');
    FoldsIsByte(o, 'o');
    FoldsIsByte(s, 's');
    FoldsIsByte(t, 't');
    NotLongS(h, o, t);
    hide Utf8, Folds;
    if s == '\U{17f}' {
      assert name == [h as int, o as int, 0xc5, 0xbf, t as int];
    } else {
      assert name == [h as int, o as int, s as int, t as int];
    }
  }

  lemma {:induction false} NotLongS(h: char, o: char, t: char)
    requires Folds(h, 'h') && Folds(o, 'o') && Folds(t, 't')
    ensures h != '\U{17f}' && o != '\U{17f}' && t != '\U{17f}'
  {
  }

  /** A header is taken for the Host header exactly if its name spells host under case folding. */
  lemma {:induction false} IsHostSpells(name: Text)
    ensures IsHost(name) <==> exists h, o, s, t :: Spelled(name, h, o, s, t)
  {
    hide IsHost, Spelled;
    if IsHost(name) {
      var h, o, s, t := HostIsSpelled(name);
    }
    if h, o, s, t :| Spelled(name, h, o, s, t) {
      SpelledIsHost(name, h, o, s, t);
    }
  }

  // ----- White space -----

  lemma {:induction false} SpaceIsUtf8(c: char)
    requires R.IsSpace(c)
    ensures SpaceWidth(Utf8(c)) == |Utf8(c)| > 0
  {
  }

  lemma {:induction false} WidthIsSpace(r: Text) returns (c: char)
    requires SpaceWidth(r) > 0
    ensures R.IsSpace(c) && r == Utf8(c)
  {
    if |r| == 1 {
      c := r[0] as char;
    } else if |r| == 2 {
      c := r[1] as char;
      assert r == Utf8(c);
    } else {
      var n := (r[0] as int - 0xe0) * 0x1000 + (r[1] as int - 0x80) * 0x40 + (r[2] as int - 0x80);
      assert n / 0x1000 == r[0] as int - 0xe0 && n / 0x40 % 0x40 == r[1] as int - 0x80 && n % 0x40 == r[2] as int - 0x80;
      c := n as char;
      assert r == Utf8(c);
    }
  }

  /** The UTF-8 form of one white-space character. */
  ghost predicate SpaceRune(r: Text)
  {
    exists c :: R.IsSpace(c) && r == Utf8(c)
  }

  /** A byte string is taken for white space exactly if it is one white-space rune. */
  lemma {:induction false} SpaceExactly(r: Text)
    ensures SpaceWidth(r) == (if SpaceRune(r) then |r| else 0)
    ensures SpaceRune(r) ==> 1 <= |r| <= 3
  {
    hide SpaceWidth, R.IsSpace, Utf8;
    WidthIsWhole(r);
    if SpaceWidth(r) > 0 {
      var c := WidthIsSpace(r);
    }
    if c :| R.IsSpace(c) && r == Utf8(c) {
      SpaceIsUtf8(c);
      SpaceSize(c);
    }
  }

  lemma {:induction false} WidthIsWhole(r: Text)
    ensures SpaceWidth(r) == 0 || SpaceWidth(r) == |r|
  {
  }

  lemma {:induction false} SpaceSize(c: char)
    requires R.IsSpace(c)
    ensures 1 <= |Utf8(c)| <= 3
  {
  }

  ghost predicate StartsWithSpace(s: Text)
  {
    exists n :: 1 <= n <= |s| && SpaceRune(s[..n])
  }

  ghost predicate EndsWithSpace(s: Text)
  {
    exists i :: 0 <= i < |s| && SpaceRune(s[i..])
  }

  /** A leading white-space rune is found exactly if there is one. */
  lemma {:induction false} LeadingExactly(s: Text)
    ensures LeadingSpace(s) > 0 <==> StartsWithSpace(s)
  {
    hide SpaceWidth, SpaceRune;
    if LeadingSpace(s) > 0 {
      LeadingIsSpace(s);
      SpaceExactly(s[..LeadingSpace(s)]);
    }
    if n :| 1 <= n <= |s| && SpaceRune(s[..n]) {
      SpaceExactly(s[..n]);
      assert n == 1 || n == 2 || n == 3;
    }
  }

  lemma {:induction false} TrailingExactly(s: Text)
    ensures TrailingSpace(s) > 0 <==> EndsWithSpace(s)
  {
    hide SpaceWidth, SpaceRune;
    if TrailingSpace(s) > 0 {
      TrailingIsSpace(s);
      SpaceExactly(s[|s| - TrailingSpace(s)..]);
    }
    if i :| 0 <= i < |s| && SpaceRune(s[i..]) {
      SpaceExactly(s[i..]);
      assert i == |s| - 1 || i == |s| - 2 || i == |s| - 3;
    }
  }

  ghost predicate AllRunesSpace(runes: seq<Text>)
  {
    forall i :: 0 <= i < |runes| ==> SpaceRune(runes[i])
  }

  lemma {:induction false} AllSpaceRunes(runes: seq<Text>)
    requires AllSpace(runes)
    ensures AllRunesSpace(runes)
  {
    hide SpaceWidth, SpaceRune;
    forall i | 0 <= i < |runes| ensures SpaceRune(runes[i]) {
      SpaceExactly(runes[i]);
    }
  }

  /** Trimming takes white-space characters off both ends, and leaves none there. */
  lemma {:induction false} TrimmedExactly(s: Text) returns (before: seq<Text>, after: seq<Text>)
    ensures s == Flat(before) + TrimSpace(s) + Flat(after) && AllRunesSpace(before) && AllRunesSpace(after)
    ensures !StartsWithSpace(TrimSpace(s)) && !EndsWithSpace(TrimSpace(s))
  {
    hide *;
    before, after := TrimSpaceExactly(s);
    LeadingExactly(TrimSpace(s));
    TrailingExactly(TrimSpace(s));
    AllSpaceRunes(before);
    AllSpaceRunes(after);
  }

  // ----- Decimal numbers -----

  /** The digits of a number, without leading zeros. */
  function Digits(n: nat): (r: Text)
  {
    var last := '0' as int + n % 10;
    if n < 10 then [last] else Digits(n / 10) + [last]
  }

  ghost predicate AllDigits(s: Text)
  {
    s != [] && forall i :: 0 <= i < |s| ==> '0' <= (s[i] as char) <= '9'
  }

  /** A string reads as a number exactly if it is one or more digits. */
  lemma {:induction false} DecimalIffDigits(s: Text)
    ensures Decimal(s) >= 0 <==> AllDigits(s)
  {
    if |s| <= 1 {
    } else {
      var init := s[..|s| - 1];
      DecimalIffDigits(init);
      assert forall i :: 0 <= i < |init| ==> init[i] == s[i];
      if AllDigits(s) {
        assert '0' <= (s[|s| - 1] as char) <= '9';
      }
    }
  }

  /** Reading undoes writing. */
  lemma {:induction false} DecimalOfDigits(n: nat)
    ensures Decimal(Digits(n)) == n
  {
    if n < 10 {
    } else {
      DecimalOfDigits(n / 10);
      var s := Digits(n);
      assert s[..|s| - 1] == Digits(n / 10) && |s| >= 2;
    }
  }

  lemma {:induction false} LeadingZero(s: Text)
    requires Decimal(s) >= 0
    ensures Decimal(['0' as int] + s) == Decimal(s)
  {
    var longer := ['0' as int] + s;
    if |s| == 1 {
      assert longer[..1] == ['0' as int];
    } else {
      assert longer[..|longer| - 1] == ['0' as int] + s[..|s| - 1];
      LeadingZero(s[..|s| - 1]);
    }
  }
}
