/** NormalizeDomain of internal/policy/domains.go. */
module Domains {
  import opened Bytes

  const DOT: byte := 46
  const HYPHEN: byte := 45

  /**
   * `strings.ToLower`, as far as NormalizeDomain can tell: besides A to Z only U+0130 and U+212A
   * have an ASCII lower-case form; any other non-ASCII rune stays non-ASCII and is rejected later.
   */
  function ToLower(s: Text): (r: Text)
    ensures |r| <= |s|
  {
    if s == [] then []
    else if StartsDottedI(s) then [105] + ToLower(s[2..])
    else if StartsKelvin(s) then [107] + ToLower(s[3..])
    else [Lower(s[0])] + ToLower(s[1..])
  }

  predicate StartsDottedI(s: Text)
  {
    |s| >= 2 && s[0] == 0xc4 && s[1] == 0xb0
  }

  predicate StartsKelvin(s: Text)
  {
    |s| >= 3 && s[0] == 0xe2 && s[1] == 0x84 && s[2] == 0xaa
  }

  function RuneWidth(s: Text): (n: nat)
    requires s != []
    ensures 1 <= n <= |s|
  {
    if StartsDottedI(s) then 2 else if StartsKelvin(s) then 3 else 1
  }

  function TrimDot(s: Text): (r: Text)
  {
    if s != [] && s[|s| - 1] == DOT then s[..|s| - 1] else s
  }

  predicate ValidLabel(part: Text)
  {
    && 1 <= |part| <= 63
    && part[0] != HYPHEN && part[|part| - 1] != HYPHEN
    && forall i :: 0 <= i < |part| ==> IsLowerAlnum(part[i]) || part[i] == HYPHEN
  }

  predicate ValidName(name: Text)
  {
    && 1 <= |name| <= 253
    && forall i :: 0 <= i < |Split(name, DOT)| ==> ValidLabel(Split(name, DOT)[i])
  }

  function Normalize(value: Text): (r: Option<Text>)
    ensures r.Some? ==> ValidName(r.value)
  {
    var name := TrimDot(ToLower(value));
    if ValidName(name) then Some(name) else None
  }

  method NormalizeDomain(value: Text) returns (r: Option<Text>)
    ensures r == Normalize(value)
  {
    var name := TrimDot(ToLower(value));
    if name == [] || |name| > 253 {
      return None;
    }
    var labels := Split(name, DOT);
    for i := 0 to |labels|
      invariant forall k :: 0 <= k < i ==> ValidLabel(labels[k])
    {
      var part := labels[i];
      if |part| == 0 || |part| > 63 || part[0] == HYPHEN || part[|part| - 1] == HYPHEN {
        return None;
      }
      for j := 0 to |part|
        invariant forall k :: 0 <= k < j ==> IsLowerAlnum(part[k]) || part[k] == HYPHEN
      {
        if !(IsLowerAlnum(part[j]) || part[j] == HYPHEN) {
          return None;
        }
      }
    }
    r := Some(name);
  }

  /** The bytes a normalized name may hold. */
  predicate NameByte(b: byte)
  {
    IsLowerAlnum(b) || b == HYPHEN || b == DOT
  }

  lemma {:induction false} BytesOfLabels(s: Text)
    requires forall i :: 0 <= i < |Split(s, DOT)| ==>
                           forall j :: 0 <= j < |Split(s, DOT)[i]| ==> NameByte(Split(s, DOT)[i][j])
    ensures forall k :: 0 <= k < |s| ==> NameByte(s[k])
  {
    if s == [] {
    } else {
      var rest, labels := Split(s[1..], DOT), Split(s, DOT);
      if s[0] == DOT {
        assert forall i :: 0 <= i < |rest| ==> rest[i] == labels[i + 1];
      } else {
        assert labels[0][0] == s[0];
        assert forall j :: 0 <= j < |rest[0]| ==> rest[0][j] == labels[0][j + 1];
        assert forall i :: 1 <= i < |rest| ==> rest[i] == labels[i];
      }
      BytesOfLabels(s[1..]);
      assert forall k :: 1 <= k < |s| ==> s[k] == s[1..][k - 1];
    }
  }

  lemma {:induction false} ToLowerFixes(s: Text)
    requires forall k :: 0 <= k < |s| ==> NameByte(s[k])
    ensures ToLower(s) == s
  {
    if s == [] {
    } else {
      ToLowerFixes(s[1..]);
    }
  }

  lemma {:induction false} LastLabel(s: Text)
    requires s != [] && s[|s| - 1] == DOT
    ensures Split(s, DOT)[|Split(s, DOT)| - 1] == []
  {
    if |s| == 1 {
    } else {
      LastLabel(s[1..]);
    }
  }

  /** A normalized name is a fixed point: lower-case ASCII with no trailing dot. */
  lemma {:induction false} NormalizeIdempotent(value: Text)
    requires Normalize(value).Some?
    ensures Normalize(Normalize(value).value) == Normalize(value)
  {
    var name := Normalize(value).value;
    BytesOfLabels(name);
    ToLowerFixes(name);
    if name[|name| - 1] == DOT {
      LastLabel(name);
    }
  }

  /** Equal up to the case of ASCII letters. */
  ghost predicate SameLetters(a: Text, b: Text)
  {
    |a| == |b| && forall i :: 0 <= i < |a| ==> Lower(a[i]) == Lower(b[i])
  }

  lemma {:induction false} ToLowerIgnoresCase(a: Text, b: Text)
    requires SameLetters(a, b)
    ensures ToLower(a) == ToLower(b)
  {
    if a == [] {
    } else {
      var n := RuneWidth(a);
      assert n == RuneWidth(b);
      ToLowerIgnoresCase(a[n..], b[n..]);
    }
  }

  lemma {:induction false} ToLowerAppendDot(s: Text)
    ensures ToLower(s + [DOT]) == ToLower(s) + [DOT]
  {
    if s == [] {
      assert s + [DOT] == [DOT];
    } else {
      var n := RuneWidth(s);
      assert n == RuneWidth(s + [DOT]);
      assert (s + [DOT])[n..] == s[n..] + [DOT];
      ToLowerAppendDot(s[n..]);
    }
  }

  /** Letter case never matters, and neither does one trailing dot. */
  lemma {:induction false} NormalizeIgnoresCaseAndDot(a: Text, b: Text)
    requires SameLetters(a, b)
    ensures Normalize(a) == Normalize(b)
    ensures a == [] || a[|a| - 1] != DOT ==> Normalize(b + [DOT]) == Normalize(a)
  {
    ToLowerIgnoresCase(a, b);
    if a == [] || a[|a| - 1] != DOT {
      ToLowerAppendDot(b);
      ToLowerKeepsNoDot(a);
      assert TrimDot(ToLower(b) + [DOT]) == ToLower(b);
    }
  }

  lemma {:induction false} ToLowerKeepsNoDot(s: Text)
    requires s == [] || s[|s| - 1] != DOT
    ensures TrimDot(ToLower(s)) == ToLower(s)
  {
    if s == [] {
    } else {
      var n := RuneWidth(s);
      ToLowerKeepsNoDot(s[n..]);
      assert ToLower(s)[1..] == ToLower(s[n..]);
    }
  }
}
