/** The coarse "Firstname Lastname" check applied to cluster centers. */
module NameFormat {

  /** The characters Ruby's argument-less `String#split` treats as separators. */
  predicate IsSpace(c: char) {
    c == ' ' || c == '\t' || c == '\n' || c == '\U{0B}' || c == '\U{0C}' || c == '\r'
  }

  predicate IsUpperAscii(c: char) {
    'A' <= c <= 'Z'
  }

  /** Length of the run of non-space characters at the front of `s`. */
  function TokenLen(s: string): (n: nat)
    ensures n <= |s|
    ensures forall k :: 0 <= k < n ==> !IsSpace(s[k])
    ensures n < |s| ==> IsSpace(s[n])
  {
    if |s| == 0 || IsSpace(s[0]) then 0 else 1 + TokenLen(s[1..])
  }

  /** `name.split`: the maximal runs of non-space characters, in order;
      leading, trailing and repeated spaces produce no empty words. */
  function Words(s: string): (ws: seq<string>)
    ensures forall k :: 0 <= k < |ws| ==> |ws[k]| > 0
    decreases |s|
  {
    if |s| == 0 then []
    else if IsSpace(s[0]) then Words(s[1..])
    else
      var n := TokenLen(s);
      [s[..n]] + Words(s[n..])
  }

  /** `right_name_format?`: at least two words, each starting with `A`..`Z`. */
  predicate RightNameFormat(name: string) {
    var ws := Words(name);
    if |ws| < 2 then false
    else forall k :: 0 <= k < |ws| ==> IsUpperAscii(ws[k][0])
  }

  /** Position `i` is where a word begins: a non-space character at the start
      of the string or right after a space. */
  predicate WordStart(s: string, i: int) {
    0 <= i < |s| && !IsSpace(s[i]) && (i == 0 || IsSpace(s[i - 1]))
  }

  /** The name, read character by character, has two word beginnings. */
  predicate TwoWordStarts(s: string) {
    exists i, j :: 0 <= i < j < |s| && WordStart(s, i) && WordStart(s, j)
  }

  /** Every word beginning of the name is an upper-case ASCII letter. */
  predicate CapitalStarts(s: string) {
    forall i :: 0 <= i < |s| && WordStart(s, i) ==> IsUpperAscii(s[i])
  }

  /** Every position moved right by `d`. */
  function Shift(ps: seq<nat>, d: nat): (r: seq<nat>)
    ensures |r| == |ps|
    ensures forall k :: 0 <= k < |ps| ==> r[k] == ps[k] + d
  {
    seq(|ps|, k requires 0 <= k < |ps| => ps[k] + d)
  }

  /** After a leading space, word starts are those of the tail, moved by one. */
  lemma WordStartAfterSpace(s: string)
    requires |s| > 0 && IsSpace(s[0])
    ensures forall i :: WordStart(s, i) <==> 1 <= i && WordStart(s[1..], i - 1)
  {
    forall i | 1 <= i < |s|
      ensures WordStart(s, i) <==> WordStart(s[1..], i - 1)
    {
      assert s[1..][i - 1] == s[i];
      if i > 1 {
        assert s[1..][i - 2] == s[i - 1];
      }
    }
  }

  /** After a leading word of length `n`, the only word start inside it is 0,
      and the later ones are those of the remainder, moved by `n`. */
  lemma WordStartAfterWord(s: string, n: nat)
    requires 0 < n && n == TokenLen(s)
    ensures forall i :: WordStart(s, i) <==> i == 0 || (n < i && WordStart(s[n..], i - n))
  {
    forall i | 0 <= i < |s|
      ensures WordStart(s, i) <==> i == 0 || (n < i && WordStart(s[n..], i - n))
    {
      if n < i {
        assert s[n..][i - n] == s[i];
        assert s[n..][i - n - 1] == s[i - 1];
      } else if 0 < i < n {
        assert !IsSpace(s[i - 1]);
      }
    }
  }

  /** `ps` lists, in increasing order, exactly the word starts of `s`, one per
      word of `Words(s)`, each holding the first character of its word. */
  ghost predicate StartsOf(s: string, ps: seq<nat>) {
    && |ps| == |Words(s)|
    && (forall k :: 0 <= k < |ps| ==> WordStart(s, ps[k]) && s[ps[k]] == Words(s)[k][0])
    && (forall k, l :: 0 <= k < l < |ps| ==> ps[k] < ps[l])
    && (forall i :: WordStart(s, i) ==> i in ps)
  }

  /** The word starts of `s` when it begins with a space: those of the tail, moved by one. */
  lemma StartsAfterSpace(s: string, rest: seq<nat>)
    requires |s| > 0 && IsSpace(s[0])
    requires StartsOf(s[1..], rest)
    ensures StartsOf(s, Shift(rest, 1))
  {
    assert Words(s) == Words(s[1..]);
    AfterSpaceHeads(s, rest);
    AfterSpaceComplete(s, rest);
  }

  /** One word start of the tail after a leading space, moved back into `s`. */
  lemma AfterSpaceHead(s: string, rest: seq<nat>, k: nat)
    requires |s| > 0 && IsSpace(s[0])
    requires StartsOf(s[1..], rest)
    requires k < |rest|
    ensures WordStart(s, rest[k] + 1) && s[rest[k] + 1] == Words(s)[k][0]
  {
    var t := s[1..];
    var r := rest[k];
    assert WordStart(t, r) && t[r] == Words(t)[k][0];
    assert s[r + 1] == t[r];
    assert r > 0 ==> s[r] == t[r - 1];
    assert Words(s) == Words(t);
  }

  /** After a leading space, the moved starts of the tail are word starts of
      `s`, holding the first letters of its words. */
  lemma AfterSpaceHeads(s: string, rest: seq<nat>)
    requires |s| > 0 && IsSpace(s[0])
    requires StartsOf(s[1..], rest)
    ensures var ps := Shift(rest, 1);
      forall k :: 0 <= k < |ps| ==> WordStart(s, ps[k]) && s[ps[k]] == Words(s)[k][0]
  {
    var ps := Shift(rest, 1);
    forall k | 0 <= k < |ps|
      ensures WordStart(s, ps[k]) && s[ps[k]] == Words(s)[k][0]
    {
      AfterSpaceHead(s, rest, k);
    }
  }

  /** After a leading space, every word start of `s` is a moved start of the tail. */
  lemma AfterSpaceComplete(s: string, rest: seq<nat>)
    requires |s| > 0 && IsSpace(s[0])
    requires StartsOf(s[1..], rest)
    ensures forall i :: WordStart(s, i) ==> i in Shift(rest, 1)
  {
    WordStartAfterSpace(s);
    var ps := Shift(rest, 1);
    forall i | WordStart(s, i) ensures i in ps {
      var k :| 0 <= k < |rest| && rest[k] == i - 1;
      assert ps[k] == i;
    }
  }

  /** Word starts of the remainder after a leading word are never at 0. */
  lemma RestStartsPositive(s: string, n: nat, rest: seq<nat>)
    requires 0 < n && n == TokenLen(s)
    requires StartsOf(s[n..], rest)
    ensures forall k :: 0 <= k < |rest| ==> rest[k] > 0
  {
    assert n < |s| ==> s[n..][0] == s[n];
  }

  /** One word start of the remainder, moved back into `s`. */
  lemma AfterWordHead(s: string, n: nat, rest: seq<nat>, k: nat)
    requires 0 < n && n == TokenLen(s)
    requires StartsOf(s[n..], rest)
    requires k < |rest|
    ensures WordStart(s, rest[k] + n) && s[rest[k] + n] == Words(s)[k + 1][0]
  {
    var tail := s[n..];
    var r := rest[k];
    assert Words(s) == [s[..n]] + Words(tail);
    RestStartsPositive(s, n, rest);
    WordStartAfterWord(s, n);
    assert WordStart(tail, r) && tail[r] == Words(tail)[k][0];
    assert s[r + n] == tail[r];
  }

  /** When `s` begins with a word of length `n`: 0 and the moved starts of the
      remainder are word starts of `s`, holding the first letters of its words. */
  lemma AfterWordHeads(s: string, n: nat, rest: seq<nat>)
    requires 0 < n && n == TokenLen(s)
    requires StartsOf(s[n..], rest)
    ensures var ps := [0] + Shift(rest, n);
      forall k :: 0 <= k < |ps| ==> WordStart(s, ps[k]) && s[ps[k]] == Words(s)[k][0]
  {
    var ps := [0] + Shift(rest, n);
    var ws := Words(s);
    assert ws == [s[..n]] + Words(s[n..]);
    forall k | 0 <= k < |ps|
      ensures WordStart(s, ps[k]) && s[ps[k]] == ws[k][0]
    {
      if k == 0 {
        assert ws[0] == s[..n];
      } else {
        assert ps[k] == rest[k - 1] + n;
        AfterWordHead(s, n, rest, k - 1);
      }
    }
  }

  /** Those starts are increasing. */
  lemma AfterWordIncreasing(s: string, n: nat, rest: seq<nat>)
    requires 0 < n && n == TokenLen(s)
    requires StartsOf(s[n..], rest)
    ensures var ps := [0] + Shift(rest, n);
      forall k, l :: 0 <= k < l < |ps| ==> ps[k] < ps[l]
  {
    RestStartsPositive(s, n, rest);
  }

  /** Those starts include every word start of `s`. */
  lemma AfterWordComplete(s: string, n: nat, rest: seq<nat>)
    requires 0 < n && n == TokenLen(s)
    requires StartsOf(s[n..], rest)
    ensures forall i :: WordStart(s, i) ==> i in [0] + Shift(rest, n)
  {
    var ps := [0] + Shift(rest, n);
    WordStartAfterWord(s, n);
    forall i | WordStart(s, i) ensures i in ps {
      if i > 0 {
        assert WordStart(s[n..], i - n);
        var k :| 0 <= k < |rest| && rest[k] == i - n;
        assert ps[k + 1] == i;
      }
    }
  }

  /** The word starts of `s` when it begins with a word of length `n`. */
  lemma StartsAfterWord(s: string, n: nat, rest: seq<nat>)
    requires 0 < n && n == TokenLen(s)
    requires StartsOf(s[n..], rest)
    ensures StartsOf(s, [0] + Shift(rest, n))
  {
    assert Words(s) == [s[..n]] + Words(s[n..]);
    AfterWordHeads(s, n, rest);
    AfterWordIncreasing(s, n, rest);
    AfterWordComplete(s, n, rest);
  }

  /** The positions where the words of `Words(s)` begin. */
  ghost function Starts(s: string): (ps: seq<nat>)
    ensures StartsOf(s, ps)
    decreases |s|
  {
    if |s| == 0 then []
    else if IsSpace(s[0]) then
      var rest := Starts(s[1..]);
      StartsAfterSpace(s, rest);
      Shift(rest, 1)
    else
      var n := TokenLen(s);
      var rest := Starts(s[n..]);
      StartsAfterWord(s, n, rest);
      [0] + Shift(rest, n)
  }

  /** A well-formed name has two word beginnings, all of them capitals. */
  lemma RightNameFormatSound(name: string)
    requires RightNameFormat(name)
    ensures TwoWordStarts(name) && CapitalStarts(name)
  {
    var ws := Words(name);
    var ps := Starts(name);
    assert WordStart(name, ps[0]) && WordStart(name, ps[1]) && ps[0] < ps[1];
    forall i | 0 <= i < |name| && WordStart(name, i) ensures IsUpperAscii(name[i]) {
      var k :| 0 <= k < |ps| && ps[k] == i;
      assert IsUpperAscii(ws[k][0]);
    }
  }

  /** A name with two word beginnings, all of them capitals, is well-formed. */
  lemma RightNameFormatComplete(name: string)
    requires TwoWordStarts(name) && CapitalStarts(name)
    ensures RightNameFormat(name)
  {
    var ws := Words(name);
    var ps := Starts(name);
    var i, j :| 0 <= i < j < |name| && WordStart(name, i) && WordStart(name, j);
    var a :| 0 <= a < |ps| && ps[a] == i;
    var b :| 0 <= b < |ps| && ps[b] == j;
    assert a != b;
    assert |ws| >= 2;
    forall k | 0 <= k < |ws| ensures IsUpperAscii(ws[k][0]) {
      assert WordStart(name, ps[k]);
    }
  }

  /** `right_name_format?` holds exactly when the name has at least two word
      beginnings and every word beginning is an upper-case ASCII letter. In
      particular the empty name and one-word names are rejected. */
  lemma RightNameFormatIff(name: string)
    ensures RightNameFormat(name) <==> TwoWordStarts(name) && CapitalStarts(name)
  {
    if RightNameFormat(name) {
      RightNameFormatSound(name);
    }
    if TwoWordStarts(name) && CapitalStarts(name) {
      RightNameFormatComplete(name);
    }
  }

  /** A lower-case first name disqualifies the whole name. */
  lemma ExampleLowerCase()
    ensures !RightNameFormat("john Smith")
  {
    RightNameFormatIff("john Smith");
    assert WordStart("john Smith", 0);
  }
}
