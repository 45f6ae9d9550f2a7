/** The fenced-code pass of the renderer: the global replacement of
    /```(\w*)\n([\s\S]*?)```/ by one preformatted block, applied to the
    already-escaped text. Matching is leftmost and non-overlapping; the body
    is the shortest text up to the next three backticks. */
module Fence {
  import opened Text
  import opened Wrappers

  const Tick3: string := "```"
  const PreOpen: string := "<pre class=\"md-code-block\"><code>"
  const PreClose: string := "</code></pre>"

  /** Length of the longest prefix of word characters (what the greedy `\w*` takes). */
  function WordRun(s: string): (n: nat)
    ensures n <= |s|
    ensures forall k :: 0 <= k < n ==> IsWordChar(s[k])
    ensures n < |s| ==> !IsWordChar(s[n])
  {
    if |s| > 0 && IsWordChar(s[0]) then 1 + WordRun(s[1..]) else 0
  }

  /** The lazy `[\s\S]*?```` : the first position at or after `from` where three backticks start. */
  function FenceClose(s: string, from: nat): (r: Option<nat>)
    ensures r.Some? ==> from <= r.value && OccursAt(s, r.value, Tick3)
    ensures r.Some? ==> forall k :: from <= k < r.value ==> !OccursAt(s, k, Tick3)
    ensures r.None? ==> forall k :: from <= k ==> !OccursAt(s, k, Tick3)
    decreases |s| - from
  {
    if from + 3 > |s| then None
    else if OccursAt(s, from, Tick3) then Some(from)
    else FenceClose(s, from + 1)
  }

  /** A fence starting at the head of `s`: the bounds of its body and of its closing backticks. */
  function FenceAtStart(s: string): (r: Option<(nat, nat)>)
    ensures r.Some? ==> 3 < r.value.0 <= r.value.1 && r.value.1 + 3 <= |s|
  {
    if !StartsWith(s, Tick3) then None
    else
      var w := 3 + WordRun(s[3..]);
      if w < |s| && s[w] == '\n' then
        match FenceClose(s, w + 1)
        case Some(j) => Some((w + 1, j))
        case None => None
      else None
  }

  /** `code.replace(/\n$/, "")`: one trailing newline removed, if there is one. */
  function StripFinalNewline(code: string): string
  {
    if |code| > 0 && code[|code| - 1] == '\n' then code[..|code| - 1] else code
  }

  function PreBlock(code: string): string
  {
    PreOpen + StripFinalNewline(code) + PreClose
  }

  /** The whole fenced-code pass. */
  function FencePass(s: string): string
    decreases |s|, 1
  {
    if |s| == 0 then ""
    else
      var f := FenceAtStart(s);
      if f.Some? then BlockThenPass(s, f.value.0, f.value.1)
      else [s[0]] + FencePass(s[1..])
  }

  /** A fence replaced by its block, and the pass resumed after its closing backticks. */
  function BlockThenPass(s: string, b: nat, j: nat): string
    requires b <= j && j + 3 <= |s|
    decreases |s|, 0
  {
    PreBlock(s[b..j]) + FencePass(s[j + 3..])
  }

  /** Text with no three backticks in a row passes unchanged. */
  lemma {:induction false} NoFenceUnchanged(s: string)
    requires !Contains(s, Tick3)
    ensures FencePass(s) == s
  {
    if |s| > 0 {
      assert !OccursAt(s, 0, Tick3);
      assert FenceAtStart(s).None?;
      forall k | 0 <= k <= |s[1..]| - 3 ensures !OccursAt(s[1..], k, Tick3) {
        assert !OccursAt(s, k + 1, Tick3);
        assert s[1..][k..k + 3] == s[k + 1..k + 4];
      }
      NoFenceUnchanged(s[1..]);
      assert s == [s[0]] + s[1..];
    }
  }

  /** A fence opened by backticks, a word-character language tag and a newline, and closed by
      the first following three backticks, becomes exactly one preformatted block whose body is
      the fence content minus one trailing newline; the pass then continues after the fence. */
  lemma FenceBecomesOnePre(lang: string, body: string, rest: string)
    requires forall k :: 0 <= k < |lang| ==> IsWordChar(lang[k])
    requires forall k :: 0 <= k < |body| ==> !OccursAt(body + Tick3, k, Tick3)
    ensures FencePass(Tick3 + lang + "\n" + body + Tick3 + rest) == PreBlock(body) + FencePass(rest)
  {
    var open := Tick3 + lang + "\n";
    var s := Tick3 + lang + "\n" + body + Tick3 + rest;
    FenceAtStartOfFence(lang, body, rest);
    FencePassAt(s, |open|, |open| + |body|);
    assert BlockThenPass(s, |open|, |open| + |body|)
        == PreBlock(s[|open|..|open| + |body|]) + FencePass(s[|open| + |body| + 3..]);
    assert s == open + body + Tick3 + rest;
    PiecesOfFence(open, body, rest);
  }

  lemma FencePassAt(s: string, b: nat, j: nat)
    requires FenceAtStart(s) == Some((b, j))
    ensures b <= j && j + 3 <= |s|
    ensures FencePass(s) == BlockThenPass(s, b, j)
  {
  }

  lemma PiecesOfFence(open: string, body: string, rest: string)
    ensures var s := open + body + Tick3 + rest;
      s[|open|..|open| + |body|] == body && s[|open| + |body| + 3..] == rest
  {
  }

  /** The fence at the head of such a text: its body and closing backticks. */
  lemma FenceAtStartOfFence(lang: string, body: string, rest: string)
    requires forall k :: 0 <= k < |lang| ==> IsWordChar(lang[k])
    requires forall k :: 0 <= k < |body| ==> !OccursAt(body + Tick3, k, Tick3)
    ensures var w := 3 + |lang|;
      FenceAtStart(Tick3 + lang + "\n" + body + Tick3 + rest) == Some((w + 1, w + 1 + |body|))
  {
    var s := Tick3 + lang + "\n" + body + Tick3 + rest;
    var w := 3 + |lang|;
    OpeningLine(lang, body, rest);
    FirstCloseInFence(s, w + 1, body);
    FenceAtStartIs(s, |lang|, w + 1 + |body|);
  }

  /** The opening backticks, the language tag, the newline, and the body with its closing backticks. */
  lemma OpeningLine(lang: string, body: string, rest: string)
    requires forall k :: 0 <= k < |lang| ==> IsWordChar(lang[k])
    ensures var s := Tick3 + lang + "\n" + body + Tick3 + rest;
      var w := 3 + |lang|;
      && StartsWith(s, Tick3) && WordRun(s[3..]) == |lang| && w < |s| && s[w] == '\n'
      && w + |body| + 4 <= |s| && s[w + 1..w + |body| + 4] == body + Tick3
  {
    var tail := "\n" + body + Tick3 + rest;
    var s := Tick3 + lang + "\n" + body + Tick3 + rest;
    var w := 3 + |lang|;
    assert s == Tick3 + lang + tail;
    assert s[3..] == lang + tail;
    assert s[..3] == Tick3;
    WordRunExact(lang, tail);
    assert s[w] == tail[0] == '\n';
    assert s[w + 1..w + |body| + 4] == tail[1..|body| + 4] == body + Tick3;
  }

  lemma FenceAtStartIs(s: string, n: nat, j: nat)
    requires StartsWith(s, Tick3) && WordRun(s[3..]) == n && 3 + n < |s| && s[3 + n] == '\n'
    requires FenceClose(s, 4 + n) == Some(j)
    ensures FenceAtStart(s) == Some((4 + n, j))
  {
  }

  /** The first three backticks after the opening line are the ones that follow the body. */
  lemma FirstCloseInFence(s: string, from: nat, body: string)
    requires from + |body| + 3 <= |s| && s[from..from + |body| + 3] == body + Tick3
    requires forall k :: 0 <= k < |body| ==> !OccursAt(body + Tick3, k, Tick3)
    ensures FenceClose(s, from) == Some(from + |body|)
  {
    var t := body + Tick3;
    var j := from + |body|;
    SliceOfSlice(s, from, from + |t|, |body|, |t|);
    assert t[|body|..] == Tick3;
    assert OccursAt(s, j, Tick3);
    forall k | from <= k < j ensures !OccursAt(s, k, Tick3) {
      var i := k - from;
      assert !OccursAt(t, i, Tick3);
      SliceOfSlice(s, from, from + |t|, i, i + 3);
    }
    FenceCloseIs(s, from, j);
  }

  /** The lazy match stops at the first closing backticks. */
  lemma {:induction false} FenceCloseIs(s: string, from: nat, j: nat)
    requires from <= j && OccursAt(s, j, Tick3)
    requires forall k :: from <= k < j ==> !OccursAt(s, k, Tick3)
    ensures FenceClose(s, from) == Some(j)
    decreases j - from
  {
    if from < j {
      assert !OccursAt(s, from, Tick3);
      FenceCloseIs(s, from + 1, j);
    }
  }

  lemma SliceOfSlice(s: string, a: nat, b: nat, c: nat, d: nat)
    requires a <= b <= |s| && c <= d <= b - a
    ensures s[a..b][c..d] == s[a + c..a + d]
  {
    var x := s[a..b][c..d];
    var y := s[a + c..a + d];
    assert |x| == |y|;
    forall i | 0 <= i < |x| ensures x[i] == y[i] {
      assert x[i] == s[a..b][c + i] == s[a + c + i];
    }
  }

  lemma {:induction false} WordRunExact(word: string, tail: string)
    requires forall k :: 0 <= k < |word| ==> IsWordChar(word[k])
    requires |tail| > 0 && !IsWordChar(tail[0])
    ensures WordRun(word + tail) == |word|
  {
    if |word| > 0 {
      assert (word + tail)[1..] == word[1..] + tail;
      WordRunExact(word[1..], tail);
    }
  }

  /** The body placed in the block is the fence content, less one final newline if it has one. */
  lemma PreBodyIsContent(code: string)
    ensures StripFinalNewline(code) + "\n" == code || StripFinalNewline(code) == code
    ensures StripFinalNewline(code) != code <==> |code| > 0 && code[|code| - 1] == '\n'
  {
  }
}
