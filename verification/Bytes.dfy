/** Bytes, big-endian integers and byte strings (Go's `[]byte` and `string`). */
module Bytes {
  type byte = x: int | 0 <= x < 256
  type u16 = x: int | 0 <= x < 0x1_0000
  type u32 = x: int | 0 <= x < 0x1_0000_0000
  type Text = seq<byte>

  datatype Option<+T> = None | Some(value: T)

  /** Most significant byte first. */
  function U16(n: u16): (r: Text)
    ensures |r| == 2 && 256 * (r[0] as int) + r[1] == n
  {
    [n / 256, n % 256]
  }

  function U16At(s: Text, i: nat): (n: u16)
    requires i + 2 <= |s|
  {
    256 * (s[i] as int) + s[i + 1]
  }

  function U32(n: u32): (r: Text)
    ensures |r| == 4
  {
    U16(n / 0x1_0000) + U16(n % 0x1_0000)
  }

  function U32At(s: Text, i: nat): (n: u32)
    requires i + 4 <= |s|
  {
    U16At(s, i) * 0x1_0000 + U16At(s, i + 2)
  }

  /** Reading at an offset undoes writing there, whatever surrounds the field. */
  lemma {:induction false} U16InContext(before: Text, n: u16, after: Text)
    ensures U16At(before + U16(n) + after, |before|) == n
  {
  }

  lemma {:induction false} U16OfSlice(s: Text, i: nat)
    requires i + 2 <= |s|
    ensures U16(U16At(s, i)) == s[i..i + 2]
  {
  }

  lemma {:induction false} U32OfSlice(s: Text, i: nat)
    requires i + 4 <= |s|
    ensures U32(U32At(s, i)) == s[i..i + 4]
  {
    var high, low := U16At(s, i), U16At(s, i + 2);
    HighLow(high, low);
    U16OfSlice(s, i);
    U16OfSlice(s, i + 2);
    assert s[i..i + 4] == s[i..i + 2] + s[i + 2..i + 4];
  }

  lemma {:induction false} HighLow(high: u16, low: u16)
    ensures (high * 0x1_0000 + low) / 0x1_0000 == high && (high * 0x1_0000 + low) % 0x1_0000 == low
  {
  }

  /** `strings.Split(s, sep)` for a one-byte separator: never empty, `Split("") == [""]`. */
  function Split(s: Text, sep: byte): (labels: seq<Text>)
    ensures |labels| >= 1
  {
    if s == [] then [[]]
    else
      var rest := Split(s[1..], sep);
      if s[0] == sep then [[]] + rest else [[s[0]] + rest[0]] + rest[1..]
  }

  function Join(labels: seq<Text>, sep: byte): (s: Text)
    requires |labels| >= 1
  {
    if |labels| == 1 then labels[0] else labels[0] + [sep] + Join(labels[1..], sep)
  }

  lemma {:induction false} JoinOfSplit(s: Text, sep: byte)
    ensures Join(Split(s, sep), sep) == s
  {
    if s == [] {
    } else {
      var rest := Split(s[1..], sep);
      JoinOfSplit(s[1..], sep);
      if s[0] == sep {
        assert Split(s, sep)[1..] == rest;
        assert s == [sep] + s[1..];
      } else {
        assert Split(s, sep)[1..] == rest[1..];
        assert s == [s[0]] + s[1..];
      }
    }
  }

  lemma {:induction false} SplitOfConcat(a: Text, sep: byte, b: Text)
    ensures Split(a + [sep] + b, sep) == Split(a, sep) + Split(b, sep)
  {
    var s := a + [sep] + b;
    if a == [] {
      assert s[1..] == b;
    } else {
      assert s[1..] == a[1..] + [sep] + b;
      SplitOfConcat(a[1..], sep, b);
    }
  }

  lemma {:induction false} JoinOfConcat(p: seq<Text>, q: seq<Text>, sep: byte)
    requires |p| >= 1 && |q| >= 1
    ensures Join(p + q, sep) == Join(p, sep) + [sep] + Join(q, sep)
  {
    if |p| == 1 {
      assert (p + q)[1..] == q;
    } else {
      assert (p + q)[1..] == p[1..] + q;
      JoinOfConcat(p[1..], q, sep);
    }
  }

  ghost predicate IsSuffix<T>(whole: seq<T>, tail: seq<T>)
  {
    |tail| <= |whole| && whole[|whole| - |tail|..] == tail
  }

  /** A suffix of labels is exactly a string suffix that starts at a label boundary. */
  lemma {:induction false} LabelSuffix(whole: Text, tail: Text, sep: byte)
    ensures IsSuffix(Split(whole, sep), Split(tail, sep)) <==> whole == tail || IsSuffix(whole, [sep] + tail)
  {
    if IsSuffix(Split(whole, sep), Split(tail, sep)) {
      SuffixOfLabels(whole, tail, sep);
    }
    if IsSuffix(whole, [sep] + tail) {
      var a := whole[..|whole| - |tail| - 1];
      assert whole == a + [sep] + tail;
      SplitOfConcat(a, sep, tail);
    }
  }

  lemma {:induction false} SuffixOfLabels(whole: Text, tail: Text, sep: byte)
    requires IsSuffix(Split(whole, sep), Split(tail, sep))
    ensures whole == tail || IsSuffix(whole, [sep] + tail)
  {
    var w, t := Split(whole, sep), Split(tail, sep);
    JoinOfSplit(whole, sep);
    JoinOfSplit(tail, sep);
    var p := w[..|w| - |t|];
    assert w == p + t;
    if p == [] {
      assert w == t;
    } else {
      JoinOfConcat(p, t, sep);
      assert whole[|Join(p, sep)|..] == [sep] + tail;
    }
  }

  /** Lower-cases one ASCII letter. */
  function Lower(b: byte): byte
  {
    if 65 <= b <= 90 then b + 32 else b
  }

  predicate IsLowerAlnum(b: byte)
  {
    97 <= b <= 122 || 48 <= b <= 57
  }
}
