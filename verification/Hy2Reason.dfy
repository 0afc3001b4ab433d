/** The reason a failure is shown with in cmd/hy2route-core/hy2_status.go; text is taken as a sequence of runes. */
module Hy2Reasons {
  const MARK := "[redacted]"

  /** `unicode.IsSpace`. */
  predicate IsSpace(c: char)
  {
    || '\U{9}' <= c <= '\U{d}' || c == ' ' || c == '\U{85}' || c == '\U{a0}' || c == '\U{1680}'
    || '\U{2000}' <= c <= '\U{200a}' || c == '\U{2028}' || c == '\U{2029}' || c == '\U{202f}' || c == '\U{205f}'
    || c == '\U{3000}'
  }

  /** `strings.ReplaceAll` of a non-empty `old`. */
  function ReplaceAll(s: string, from: string, to: string): string
    requires from != []
    decreases |s|
  {
    if |s| < |from| then s
    else if from <= s then to + ReplaceAll(s[|from|..], from, to)
    else [s[0]] + ReplaceAll(s[1..], from, to)
  }

  function Redacted(reason: string, secrets: seq<string>): string
    decreases |secrets|
  {
    if secrets == [] then reason
    else Redacted(if secrets[0] == [] then reason else ReplaceAll(reason, secrets[0], MARK), secrets[1..])
  }

  function WordLength(s: string): (n: nat)
    ensures n <= |s| && (n < |s| ==> IsSpace(s[n])) && forall i :: 0 <= i < n ==> !IsSpace(s[i])
  {
    if s == [] || IsSpace(s[0]) then 0
    else
      assert forall i :: 1 <= i < |s| ==> s[i] == s[1..][i - 1];
      1 + WordLength(s[1..])
  }

  /** `strings.Fields`. */
  function Fields(s: string): (words: seq<string>)
    ensures forall i :: 0 <= i < |words| ==> IsWord(words[i])
    decreases |s|
  {
    if s == [] then []
    else if IsSpace(s[0]) then Fields(s[1..])
    else [s[..WordLength(s)]] + Fields(s[WordLength(s)..])
  }

  predicate IsWord(s: string)
  {
    s != [] && forall i :: 0 <= i < |s| ==> !IsSpace(s[i])
  }

  /** `strings.Join` with one space. */
  function Joined(words: seq<string>): string
  {
    if words == [] then []
    else if |words| == 1 then words[0]
    else words[0] + " " + Joined(words[1..])
  }

  function Shown(reason: string, secrets: seq<string>): string
  {
    var s := Joined(Fields(Redacted(reason, secrets)));
    if |s| > 1024 then s[..1024] + "..." else s
  }

  /** One space between words, and none elsewhere. */
  ghost predicate SingleSpaced(s: string)
  {
    && (s != [] ==> !IsSpace(s[0]))
    && forall i :: 0 <= i < |s| && IsSpace(s[i]) ==> s[i] == ' ' && i + 1 < |s| && !IsSpace(s[i + 1])
  }

  lemma {:induction false} JoinedIsSpaced(words: seq<string>)
    requires forall i :: 0 <= i < |words| ==> IsWord(words[i])
    ensures SingleSpaced(Joined(words)) && (words != [] ==> Joined(words) != [])
  {
    if |words| <= 1 {
    } else {
      var rest := Joined(words[1..]);
      assert forall i :: 0 <= i < |words| - 1 ==> words[1..][i] == words[i + 1];
      JoinedIsSpaced(words[1..]);
      var s, n := Joined(words), |words[0]|;
      assert forall i :: 0 <= i < n ==> s[i] == words[0][i];
      assert forall i :: 0 <= i < |rest| ==> s[n + 1 + i] == rest[i];
      forall i | 0 <= i < |s| && IsSpace(s[i]) ensures s[i] == ' ' && i + 1 < |s| && !IsSpace(s[i + 1]) {
        if i == n {
          assert s[n + 1] == rest[0];
        } else {
          assert i > n && s[i] == rest[i - n - 1];
          assert s[i + 1] == rest[i - n];
        }
      }
    }
  }

  lemma {:induction false} FirstWord(word: string, s: string)
    requires IsWord(word) && (s != [] ==> IsSpace(s[0]))
    ensures Fields(word + s) == [word] + Fields(s)
  {
    var all, n := word + s, |word|;
    assert forall i :: 0 <= i < n ==> all[i] == word[i];
    assert s != [] ==> all[n] == s[0];
    assert WordLength(all) == n;
    assert all[..n] == word && all[n..] == s;
  }

  lemma {:induction false} SkipSpace(s: string)
    ensures Fields(" " + s) == Fields(s)
  {
    assert (" " + s)[1..] == s;
  }

  lemma {:induction false} JoinedCons(word: string, rest: seq<string>)
    ensures Joined([word] + rest) == word + (if rest == [] then [] else " " + Joined(rest))
  {
    assert ([word] + rest)[1..] == rest;
  }

  lemma {:induction false} NoFields()
    ensures Fields([]) == [] && Joined([]) == []
  {
  }

  lemma {:induction false} FieldsOfJoined(words: seq<string>)
    requires forall i :: 0 <= i < |words| ==> IsWord(words[i])
    ensures Fields(Joined(words)) == words
  {
    hide IsWord, Fields, Joined;
    NoFields();
    if words == [] {
    } else {
      var word, rest := words[0], words[1..];
      FieldsOfJoined(rest);
      assert words == [word] + rest;
      JoinedCons(word, rest);
      SkipSpace(Joined(rest));
      FirstWord(word, if rest == [] then [] else " " + Joined(rest));
    }
  }

  /** A shown reason is one line of at most 1027 runes; unless it was cut, it has the words of the redacted reason. */
  lemma {:induction false} ShownIsTidy(reason: string, secrets: seq<string>)
    ensures var s := Shown(reason, secrets);
            && |s| <= 1027 && SingleSpaced(s)
            && (|s| <= 1024 ==> Fields(s) == Fields(Redacted(reason, secrets)))
  {
    hide Fields, Joined, IsSpace;
    var words := Fields(Redacted(reason, secrets));
    JoinedIsSpaced(words);
    FieldsOfJoined(words);
    Dots();
  }

  lemma {:induction false} Dots()
    ensures !IsSpace('.')
  {
  }

  // ----- What redaction leaves -----

  ghost predicate OccursAt(s: string, w: string, i: int)
  {
    0 <= i && i + |w| <= |s| && s[i..i + |w|] == w
  }

  ghost predicate Occurs(s: string, w: string)
  {
    exists i :: OccursAt(s, w, i)
  }

  /** A secret that cannot be mistaken for part of its own replacement: no bracket in it, and no part of the word between them. */
  ghost predicate Apart(secret: string)
  {
    secret != [] && '[' !in secret && ']' !in secret && !Occurs("redacted", secret)
  }

  lemma {:induction false} OccursLater(s: string, n: nat, w: string)
    requires n <= |s| && Occurs(s[n..], w)
    ensures Occurs(s, w)
  {
    var i :| OccursAt(s[n..], w, i);
    assert s[n..][i..i + |w|] == s[n + i..n + i + |w|];
    assert OccursAt(s, w, n + i);
  }

  /** What the replaced text begins with, up to the first mark, the text begins with. */
  lemma {:induction false} ReplacedBegins(s: string, from: string, w: string)
    requires from != [] && w <= ReplaceAll(s, from, MARK)
    ensures '[' in w || w <= s
    decreases |s|
  {
    if |s| < |from| || w == [] {
    } else if from <= s {
      assert w[0] == ReplaceAll(s, from, MARK)[0] == '[';
    } else {
      assert w[0] == s[0] && w[1..] <= ReplaceAll(s[1..], from, MARK);
      ReplacedBegins(s[1..], from, w[1..]);
      assert w == [w[0]] + w[1..] && s == [s[0]] + s[1..];
    }
  }

  /** Whatever reaches into a mark has one of its brackets or is part of its word. */
  lemma {:induction false} MarkReached(w: string, rest: string, i: nat)
    requires w != [] && OccursAt(MARK + rest, w, i) && i < |MARK|
    ensures '[' in w || ']' in w || Occurs("redacted", w)
  {
    var all := MARK + rest;
    if i == 0 {
      assert w[0] == all[0];
    } else if i + |w| >= |MARK| {
      assert w[|MARK| - 1 - i] == all[|MARK| - 1];
    } else {
      assert "redacted"[i - 1..i - 1 + |w|] == all[i..i + |w|];
      assert OccursAt("redacted", w, i - 1);
    }
  }

  lemma {:induction false} AfterMark(w: string, rest: string, i: nat)
    requires OccursAt(MARK + rest, w, i) && i >= |MARK|
    ensures OccursAt(rest, w, i - |MARK|)
  {
    assert rest[i - |MARK|..i - |MARK| + |w|] == (MARK + rest)[i..i + |w|];
  }

  lemma {:induction false} NotInMark(w: string, rest: string, i: nat)
    requires Apart(w) && OccursAt(MARK + rest, w, i)
    ensures i >= |MARK| && OccursAt(rest, w, i - |MARK|)
  {
    if i < |MARK| {
      MarkReached(w, rest, i);
    } else {
      AfterMark(w, rest, i);
    }
  }

  /** Replacing one secret brings no other one about. */
  lemma {:induction false} ReplaceAddsNone(s: string, from: string, w: string)
    requires from != [] && Apart(w) && Occurs(ReplaceAll(s, from, MARK), w)
    ensures Occurs(s, w)
    decreases |s|
  {
    var all := ReplaceAll(s, from, MARK);
    var i :| OccursAt(all, w, i);
    if |s| < |from| {
    } else if from <= s {
      var rest := ReplaceAll(s[|from|..], from, MARK);
      NotInMark(w, rest, i);
      ReplaceAddsNone(s[|from|..], from, w);
      OccursLater(s, |from|, w);
    } else if i == 0 {
      assert w <= all by { assert all[..|w|] == all[0..0 + |w|]; }
      ReplacedBegins(s, from, w);
      assert OccursAt(s, w, 0);
    } else {
      var rest := ReplaceAll(s[1..], from, MARK);
      assert rest[i - 1..i - 1 + |w|] == all[i..i + |w|];
      assert OccursAt(rest, w, i - 1);
      ReplaceAddsNone(s[1..], from, w);
      OccursLater(s, 1, w);
    }
  }

  /** And it leaves no occurrence of the secret itself. */
  lemma {:induction false} ReplaceLeavesNone(s: string, w: string)
    requires Apart(w)
    ensures !Occurs(ReplaceAll(s, w, MARK), w)
    decreases |s|
  {
    var all := ReplaceAll(s, w, MARK);
    if i :| OccursAt(all, w, i) {
      if |s| < |w| {
      } else if w <= s {
        var rest := ReplaceAll(s[|w|..], w, MARK);
        NotInMark(w, rest, i);
        ReplaceLeavesNone(s[|w|..], w);
      } else if i == 0 {
        assert w <= all by { assert all[..|w|] == all[0..0 + |w|]; }
        ReplacedBegins(s, w, w);
      } else {
        var rest := ReplaceAll(s[1..], w, MARK);
        assert rest[i - 1..i - 1 + |w|] == all[i..i + |w|];
        assert OccursAt(rest, w, i - 1);
        ReplaceLeavesNone(s[1..], w);
      }
    }
  }

  lemma {:induction false} RedactedAddsNone(reason: string, secrets: seq<string>, w: string)
    requires Apart(w) && Occurs(Redacted(reason, secrets), w)
    ensures Occurs(reason, w)
    decreases |secrets|
  {
    if secrets == [] {
    } else {
      var next := if secrets[0] == [] then reason else ReplaceAll(reason, secrets[0], MARK);
      RedactedAddsNone(next, secrets[1..], w);
      if secrets[0] != [] {
        ReplaceAddsNone(reason, secrets[0], w);
      }
    }
  }

  /** No secret that stands apart from the mark occurs in a redacted reason. */
  lemma {:induction false} RedactedHidesSecrets(reason: string, secrets: seq<string>, w: string)
    requires w in secrets && Apart(w)
    ensures !Occurs(Redacted(reason, secrets), w)
    decreases |secrets|
  {
    var next := if secrets[0] == [] then reason else ReplaceAll(reason, secrets[0], MARK);
    if secrets[0] == w {
      ReplaceLeavesNone(reason, w);
      if Occurs(Redacted(next, secrets[1..]), w) {
        RedactedAddsNone(next, secrets[1..], w);
      }
    } else {
      RedactedHidesSecrets(next, secrets[1..], w);
    }
  }

  /** Redaction changes nothing else: a reason without any secret is left as it is. */
  lemma {:induction false} RedactedKeeps(reason: string, secrets: seq<string>)
    requires forall w :: w in secrets && w != [] ==> !Occurs(reason, w)
    ensures Redacted(reason, secrets) == reason
    decreases |secrets|
  {
    if secrets == [] {
    } else {
      if secrets[0] != [] {
        ReplaceKeeps(reason, secrets[0]);
      }
      assert forall w :: w in secrets[1..] ==> w in secrets;
      RedactedKeeps(reason, secrets[1..]);
    }
  }

  lemma {:induction false} ReplaceKeeps(s: string, w: string)
    requires w != [] && !Occurs(s, w)
    ensures ReplaceAll(s, w, MARK) == s
    decreases |s|
  {
    if |s| < |w| {
    } else {
      assert !(w <= s) by {
        if w <= s {
          assert s[0..0 + |w|] == w;
          assert OccursAt(s, w, 0);
        }
      }
      if Occurs(s[1..], w) {
        OccursLater(s, 1, w);
      }
      ReplaceKeeps(s[1..], w);
      assert s == [s[0]] + s[1..];
    }
  }

  /** A secret that is part of the mark's own word is shown by the mark. */
  lemma {:induction false} MarkMayShow(w: string)
    requires w != [] && Occurs("redacted", w)
    ensures Redacted(w, [w]) == MARK && Occurs(MARK, w)
  {
    assert [w][1..] == [] && w[|w|..] == [];
    assert ReplaceAll(w, w, MARK) == MARK + [];
    var i :| OccursAt("redacted", w, i);
    assert MARK[i + 1..i + 1 + |w|] == "redacted"[i..i + |w|];
    assert OccursAt(MARK, w, i + 1);
  }

  // ----- What folding and cutting leave -----

  lemma {:induction false} OccursWithin(s: string, part: string, w: string)
    requires Occurs(s, part) && Occurs(part, w)
    ensures Occurs(s, w)
  {
    var i :| OccursAt(s, part, i);
    var j :| OccursAt(part, w, j);
    forall k | 0 <= k < |w| ensures s[i + j + k] == w[k] {
      assert part[j + k] == s[i..i + |part|][j + k] && w[k] == part[j..j + |w|][k];
    }
    assert s[i + j..i + j + |w|] == w;
    assert OccursAt(s, w, i + j);
  }

  lemma {:induction false} FieldsOccur(s: string, k: nat)
    requires k < |Fields(s)|
    ensures Occurs(s, Fields(s)[k])
    decreases |s|
  {
    var n := WordLength(s);
    if IsSpace(s[0]) {
      FieldsOccur(s[1..], k);
      OccursLater(s, 1, Fields(s)[k]);
    } else if k == 0 {
      assert s[0..0 + n] == s[..n];
      assert OccursAt(s, s[..n], 0);
    } else {
      FieldsOccur(s[n..], k - 1);
      OccursLater(s, n, Fields(s)[k]);
    }
  }

  lemma {:induction false} OneSide(a: string, b: string, w: string)
    requires w != [] && Occurs(a + " " + b, w)
    ensures Occurs(a, w) || Occurs(b, w) || ' ' in w
  {
    var all := a + " " + b;
    var i :| OccursAt(all, w, i);
    if i + |w| <= |a| {
      assert a[i..i + |w|] == all[i..i + |w|];
      assert OccursAt(a, w, i);
    } else if i > |a| {
      assert b[i - |a| - 1..i - |a| - 1 + |w|] == all[i..i + |w|];
      assert OccursAt(b, w, i - |a| - 1);
    } else {
      assert w[|a| - i] == all[|a|];
    }
  }

  lemma {:induction false} JoinedOccurs(words: seq<string>, w: string) returns (k: nat)
    requires IsWord(w) && Occurs(Joined(words), w)
    ensures k < |words| && Occurs(words[k], w)
  {
    if |words| == 1 {
      k := 0;
    } else if words != [] {
      OneSide(words[0], Joined(words[1..]), w);
      if Occurs(words[0], w) {
        k := 0;
      } else {
        var rest := JoinedOccurs(words[1..], w);
        k := rest + 1;
      }
    }
  }

  lemma {:induction false} CutOccurs(s: string, w: string)
    requires w != [] && |s| > 1024 && Occurs(s[..1024] + "...", w)
    ensures Occurs(s, w) || '.' in w
  {
    var cut := s[..1024] + "...";
    var i :| OccursAt(cut, w, i);
    if i + |w| > 1024 {
      assert w[|w| - 1] == cut[i + |w| - 1];
    } else {
      forall k | 0 <= k < |w| ensures s[i + k] == w[k] {
        assert cut[i..i + |w|][k] == cut[i + k] == s[..1024][i + k];
      }
      assert s[i..i + |w|] == w;
      assert OccursAt(s, w, i);
    }
  }

  /** So no such secret is shown, if it has no space, and no dot where the reason had to be cut. */
  lemma {:induction false} ShownHidesSecrets(reason: string, secrets: seq<string>, w: string)
    requires w in secrets && Apart(w) && IsWord(w)
    requires '.' !in w || |Shown(reason, secrets)| <= 1024
    ensures !Occurs(Shown(reason, secrets), w)
  {
    hide Redacted, Fields, Joined, Apart;
    var words := Fields(Redacted(reason, secrets));
    var joined := Joined(words);
    RedactedHidesSecrets(reason, secrets, w);
    if Occurs(Shown(reason, secrets), w) {
      if |joined| > 1024 {
        CutOccurs(joined, w);
      }
      var k := JoinedOccurs(words, w);
      FieldsOccur(Redacted(reason, secrets), k);
      OccursWithin(Redacted(reason, secrets), words[k], w);
    }
  }
}
