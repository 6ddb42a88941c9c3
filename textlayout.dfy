/**
 * The line layout of the byte-code stream, independent of what the texts hold:
 * word texts of 20 characters written one after another, with a line break
 * after every fourth.
 */
module TextLayout {
  /** Characters in the text of one word: four tokens of five characters. */
  const WordWidth: nat := 20

  /** The line break written after word `j`: one after every fourth word. */
  function LineBreak(j: nat): (s: string)
    ensures |s| == (if j % 4 == 3 then 1 else 0)
    ensures j % 4 == 3 ==> s == "\n"
  {
    if j % 4 == 3 then "\n" else ""
  }

  /** Every text is one word wide and holds no line break. */
  predicate WordWide(texts: seq<string>) {
    forall t :: 0 <= t < |texts| ==> |texts[t]| == WordWidth && '\n' !in texts[t]
  }

  /** The texts in order, each followed by its line break. */
  function Join(texts: seq<string>): string {
    if |texts| == 0 then ""
    else Join(texts[..|texts| - 1]) + texts[|texts| - 1] + LineBreak(|texts| - 1)
  }

  /** The texts in order, with no line breaks. */
  function Concat(texts: seq<string>): string {
    if |texts| == 0 then "" else Concat(texts[..|texts| - 1]) + texts[|texts| - 1]
  }

  /** Where the text of word `j` starts: 20 characters per earlier word and one per earlier line break. */
  function WordOffset(j: nat): nat {
    WordWidth * j + j / 4
  }

  /** One more text adds a line to the count exactly when it is the fourth of its line. */
  lemma QuarterStep(n: nat)
    ensures (n + 1) / 4 == n / 4 + (if n % 4 == 3 then 1 else 0)
    ensures WordOffset(n + 1) == WordOffset(n) + WordWidth + (if n % 4 == 3 then 1 else 0)
  {
  }

  /** Joining one more text appends it and its line break. */
  lemma JoinAppend(texts: seq<string>, t: string)
    ensures Join(texts + [t]) == Join(texts) + t + LineBreak(|texts|)
  {
    assert (texts + [t])[..|texts|] == texts;
  }

  /** Joined word-wide texts end where the next word would start. */
  lemma {:induction false} JoinLength(texts: seq<string>)
    requires WordWide(texts)
    ensures |Join(texts)| == WordOffset(|texts|)
  {
    if |texts| > 0 {
      JoinLength(texts[..|texts| - 1]);
      QuarterStep(|texts| - 1);
    }
  }

  /** The join of a prefix of the texts is a prefix of the join. */
  lemma {:induction false} JoinPrefix(texts: seq<string>, n: nat)
    requires WordWide(texts) && n <= |texts|
    ensures WordOffset(n) <= |Join(texts)|
    ensures Join(texts)[..WordOffset(n)] == Join(texts[..n])
  {
    JoinLength(texts);
    if n < |texts| {
      var front := texts[..|texts| - 1];
      JoinLength(front);
      JoinPrefix(front, n);
      assert front[..n] == texts[..n];
    } else {
      assert texts[..n] == texts;
    }
  }

  /**
   * The text of word `j` lies at `WordOffset(j)`, and between it and the next
   * word there is a line break iff `j % 4 == 3`.
   */
  lemma JoinLayout(texts: seq<string>, j: nat)
    requires WordWide(texts) && j < |texts|
    ensures WordOffset(j + 1) == WordOffset(j) + WordWidth + (if j % 4 == 3 then 1 else 0)
    ensures WordOffset(j + 1) <= |Join(texts)|
    ensures Join(texts)[WordOffset(j)..WordOffset(j) + WordWidth] == texts[j]
    ensures j % 4 == 3 ==> Join(texts)[WordOffset(j) + WordWidth] == '\n'
  {
    QuarterStep(j);
    JoinPrefix(texts, j + 1);
    var upTo := texts[..j + 1];
    assert upTo[..j] == texts[..j];
    JoinLength(texts[..j]);
    var head := Join(texts[..j]);
    assert |head| == WordOffset(j);
    var line := Join(texts)[..WordOffset(j + 1)];
    assert line == head + texts[j] + LineBreak(j);
    assert Join(texts)[WordOffset(j)..WordOffset(j) + WordWidth] == line[WordOffset(j)..WordOffset(j) + WordWidth];
  }

  /** The number of line breaks in `s`. */
  function LineBreaks(s: string): nat {
    multiset(s)['\n']
  }

  lemma LineBreaksAppend(a: string, b: string, c: string)
    ensures LineBreaks(a + b + c) == LineBreaks(a) + LineBreaks(b) + LineBreaks(c)
  {
    assert multiset(a + b + c) == multiset(a) + multiset(b) + multiset(c);
  }

  /** Joined word-wide texts hold one line break per four texts. */
  lemma {:induction false} JoinLineBreaks(texts: seq<string>)
    requires WordWide(texts)
    ensures LineBreaks(Join(texts)) == |texts| / 4
  {
    if |texts| > 0 {
      var n := |texts| - 1;
      JoinLineBreaks(texts[..n]);
      var head, t, brk := Join(texts[..n]), texts[n], LineBreak(n);
      assert Join(texts) == head + t + brk;
      LineBreaksAppend(head, t, brk);
      assert LineBreaks(t) == 0;
      assert LineBreaks(brk) == (if n % 4 == 3 then 1 else 0);
      QuarterStep(n);
    }
  }

  /** The text with its line breaks removed. */
  function WithoutLineBreaks(s: string): (t: string)
    ensures '\n' !in t
  {
    if |s| == 0 then ""
    else WithoutLineBreaks(s[..|s| - 1]) + (if s[|s| - 1] == '\n' then "" else [s[|s| - 1]])
  }

  lemma {:induction false} WithoutLineBreaksAppend(s: string, t: string)
    ensures WithoutLineBreaks(s + t) == WithoutLineBreaks(s) + WithoutLineBreaks(t)
  {
    if |t| > 0 {
      var n := |t| - 1;
      assert (s + t)[..|s + t| - 1] == s + t[..n];
      WithoutLineBreaksAppend(s, t[..n]);
    } else {
      assert s + t == s;
    }
  }

  lemma {:induction false} WithoutLineBreaksKeeps(s: string)
    requires '\n' !in s
    ensures WithoutLineBreaks(s) == s
  {
    if |s| > 0 {
      WithoutLineBreaksKeeps(s[..|s| - 1]);
    }
  }

  /** Removing the line breaks of the join leaves the texts laid end to end. */
  lemma {:induction false} JoinWithoutLineBreaks(texts: seq<string>)
    requires WordWide(texts)
    ensures WithoutLineBreaks(Join(texts)) == Concat(texts)
  {
    if |texts| > 0 {
      var n := |texts| - 1;
      JoinWithoutLineBreaks(texts[..n]);
      var t := texts[n];
      WithoutLineBreaksAppend(Join(texts[..n]) + t, LineBreak(n));
      WithoutLineBreaksAppend(Join(texts[..n]), t);
      WithoutLineBreaksKeeps(t);
      assert WithoutLineBreaks(LineBreak(n)) == "" by {
        if n % 4 == 3 {
          assert LineBreak(n)[..0] == "";
        }
      }
    }
  }
}
