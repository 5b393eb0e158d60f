/**
 * The fenced-block scanner: `ANKI_BLOCK_RE = ```anki\s*\n(.*?)\n````, applied
 * with DOTALL and IGNORECASE through `finditer`.
 */
module AnkiBlocks {
  import opened Wrappers
  import opened Strings

  /** The closing fence, with the newline before it. */
  const Close: string := "\n```"

  /** One match: the fence opens at `start`, group 1 is `s[bodyStart..bodyEnd]`. */
  datatype Block = Block(start: nat, bodyStart: nat, bodyEnd: nat, end: nat)

  /** Three backticks and the tag `anki` in any case. */
  predicate Opens(s: string, i: int)
  {
    At(s, "```", i) && AtIgnoreCase(s, "anki", i + 3)
  }

  /** The length of the longest run of `\s` characters starting at `j` (what greedy `\s*` takes). */
  function SpaceRun(s: string, j: nat): (n: nat)
    requires j <= |s|
    ensures j + n <= |s|
    ensures forall k :: j <= k < j + n ==> IsSpace(s[k])
    ensures j + n == |s| || !IsSpace(s[j + n])
    decreases |s| - j
  {
    if j < |s| && IsSpace(s[j]) then 1 + SpaceRun(s, j + 1) else 0
  }

  /** What every match satisfies. */
  predicate WellFormed(s: string, b: Block)
  {
    && Opens(s, b.start)
    && b.start + 8 <= b.bodyStart <= b.bodyEnd
    && b.end == b.bodyEnd + 4 <= |s|
    && s[b.bodyStart - 1] == '\n'
    && (forall k :: b.start + 7 <= k < b.bodyStart ==> IsSpace(s[k]))
    && At(s, Close, b.bodyEnd)
    && (forall k :: b.bodyStart <= k < b.bodyEnd ==> !At(s, Close, k))
  }

  function Body(s: string, b: Block): string
    requires WellFormed(s, b)
  {
    s[b.bodyStart..b.bodyEnd]
  }

  /**
   * Backtracking through `\s*\n(.*?)\n```` once the tag has matched at `i`: the
   * newline candidates are the positions `j <= p < j + k`, tried from the last
   * (greedy `\s*`); for each, the lazy body ends at the first closing fence.
   */
  function TryNewlines(s: string, i: nat, j: nat, k: nat): (r: Option<Block>)
    requires Opens(s, i) && j == i + 7
    requires j + k <= |s|
    requires forall q :: j <= q < j + k ==> IsSpace(s[q])
    ensures r.Some? ==> r.value.start == i && j < r.value.bodyStart <= j + k && s[r.value.bodyStart - 1] == '\n'
    decreases k
  {
    if k == 0 then None
    else
      var p := j + k - 1;
      if s[p] == '\n' && FindFrom(s, Close, p + 1).Some? then
        var q := FindFrom(s, Close, p + 1).value;
        Some(Block(i, p + 1, q, q + 4))
      else TryNewlines(s, i, j, k - 1)
  }

  /** Every candidate taken is a well-formed match starting at `i`. */
  lemma {:induction false} TryNewlinesWellFormed(s: string, i: nat, j: nat, k: nat)
    requires Opens(s, i) && j == i + 7
    requires j + k <= |s|
    requires forall q :: j <= q < j + k ==> IsSpace(s[q])
    ensures var r := TryNewlines(s, i, j, k);
      r.Some? ==> WellFormed(s, r.value) && r.value.start == i
    decreases k
  {
    if k > 0 {
      var p := j + k - 1;
      if s[p] == '\n' && FindFrom(s, Close, p + 1).Some? {
        CandidateWellFormed(s, i, p, FindFrom(s, Close, p + 1).value);
      } else {
        TryNewlinesWellFormed(s, i, j, k - 1);
      }
    }
  }

  /** No newline in `[a, b)` is followed, anywhere later, by a closing fence. */
  predicate NoCloseAfterNewline(s: string, a: nat, b: nat)
    requires b <= |s|
  {
    forall p :: a <= p < b && s[p] == '\n' ==> FindFrom(s, Close, p + 1).None?
  }

  lemma NoCloseAfterNewlineExtend(s: string, a: nat, b: nat)
    requires a <= b < |s| && NoCloseAfterNewline(s, a, b)
    requires s[b] != '\n' || FindFrom(s, Close, b + 1).None?
    ensures NoCloseAfterNewline(s, a, b + 1)
  {
  }

  /** No candidate means no newline of the run is followed by a closing fence. */
  lemma {:induction false} TryNewlinesNone(s: string, i: nat, j: nat, k: nat)
    requires Opens(s, i) && j == i + 7
    requires j + k <= |s|
    requires forall q :: j <= q < j + k ==> IsSpace(s[q])
    requires TryNewlines(s, i, j, k).None?
    ensures NoCloseAfterNewline(s, j, j + k)
    decreases k
  {
    if k == 0 {
      assert NoCloseAfterNewline(s, j, j);
    } else {
      assert TryNewlines(s, i, j, k) == TryNewlines(s, i, j, k - 1);
      TryNewlinesNone(s, i, j, k - 1);
      NoCloseAfterNewlineExtend(s, j, j + k - 1);
    }
  }

  /**
   * The candidate taken is the last newline of the run that a closing fence follows;
   * the body ends at the first closing fence after it.
   */
  lemma {:induction false} TryNewlinesSome(s: string, i: nat, j: nat, k: nat)
    requires Opens(s, i) && j == i + 7
    requires j + k <= |s|
    requires forall q :: j <= q < j + k ==> IsSpace(s[q])
    ensures var r := TryNewlines(s, i, j, k);
      r.Some? ==>
        var p := r.value.bodyStart - 1;
        && j <= p < j + k
        && FindFrom(s, Close, p + 1) == Some(r.value.bodyEnd)
        && NoCloseAfterNewline(s, p + 1, j + k)
    decreases k
  {
    if k > 0 {
      var p := j + k - 1;
      if s[p] == '\n' && FindFrom(s, Close, p + 1).Some? {
        TryNewlinesHere(s, i, j, k);
      } else {
        TryNewlinesSome(s, i, j, k - 1);
        TryNewlinesSkip(s, i, j, k);
      }
    }
  }

  /** The last position of the run, when a newline followed by a closing fence, is taken. */
  lemma TryNewlinesHere(s: string, i: nat, j: nat, k: nat)
    requires Opens(s, i) && j == i + 7 && 0 < k && j + k <= |s|
    requires forall q :: j <= q < j + k ==> IsSpace(s[q])
    requires s[j + k - 1] == '\n' && FindFrom(s, Close, j + k).Some?
    ensures TryNewlines(s, i, j, k) == Some(Block(i, j + k, FindFrom(s, Close, j + k).value, FindFrom(s, Close, j + k).value + 4))
    ensures NoCloseAfterNewline(s, j + k, j + k)
  {
  }

  /** A position passed over keeps the property of the candidate found before it. */
  lemma TryNewlinesSkip(s: string, i: nat, j: nat, k: nat)
    requires Opens(s, i) && j == i + 7 && 0 < k && j + k <= |s|
    requires forall q :: j <= q < j + k ==> IsSpace(s[q])
    requires s[j + k - 1] != '\n' || FindFrom(s, Close, j + k).None?
    requires var r := TryNewlines(s, i, j, k - 1);
      r.Some? ==> j + 1 <= r.value.bodyStart <= j + k - 1 && NoCloseAfterNewline(s, r.value.bodyStart, j + k - 1)
    ensures TryNewlines(s, i, j, k) == TryNewlines(s, i, j, k - 1)
    ensures var r := TryNewlines(s, i, j, k);
      r.Some? ==> NoCloseAfterNewline(s, r.value.bodyStart, j + k)
  {
    var r := TryNewlines(s, i, j, k - 1);
    assert TryNewlines(s, i, j, k) == r;
    if r.Some? {
      NoCloseAfterNewlineExtend(s, r.value.bodyStart, j + k - 1);
    }
  }

  lemma CandidateWellFormed(s: string, i: nat, p: nat, q: nat)
    requires Opens(s, i) && i + 7 <= p < |s| && s[p] == '\n'
    requires forall x :: i + 7 <= x <= p ==> IsSpace(s[x])
    requires FindFrom(s, Close, p + 1) == Some(q)
    ensures WellFormed(s, Block(i, p + 1, q, q + 4))
  {
  }

  /** The regex tried at position `i`. */
  function BlockAt(s: string, i: nat): (r: Option<Block>)
    requires i <= |s|
    ensures r.Some? ==> WellFormed(s, r.value) && r.value.start == i < r.value.end <= |s|
  {
    if !Opens(s, i) then None
    else
      var r := TryNewlines(s, i, i + 7, SpaceRun(s, i + 7));
      TryNewlinesWellFormed(s, i, i + 7, SpaceRun(s, i + 7));
      if r.Some? then
        assert s[r.value.bodyStart - 1] == '\n';
        r
      else r
  }

  /** No match of the regex starts in `[a, b)`. */
  predicate NoBlockIn(s: string, a: nat, b: nat)
  {
    forall p: nat :: a <= p < b && p <= |s| ==> BlockAt(s, p).None?
  }

  /**
   * The matches are exactly the ones a left-to-right scan finds: none starts in a
   * gap before, between or after them.
   */
  predicate Leftmost(s: string, from: nat, r: seq<Block>)
    decreases |r|
  {
    if r == [] then NoBlockIn(s, from, |s|)
    else NoBlockIn(s, from, r[0].start) && Leftmost(s, r[0].end, r[1..])
  }

  /** Each block is what the regex matches at its start. */
  predicate AllMatches(s: string, r: seq<Block>)
    decreases |r|
  {
    r == [] || (r[0].start <= |s| && BlockAt(s, r[0].start) == Some(r[0]) && AllMatches(s, r[1..]))
  }

  lemma {:induction false} AllMatchesAt(s: string, r: seq<Block>, k: nat)
    requires AllMatches(s, r) && k < |r|
    ensures r[k].start <= |s| && BlockAt(s, r[k].start) == Some(r[k]) && WellFormed(s, r[k])
  {
    if k > 0 { AllMatchesAt(s, r[1..], k - 1); }
  }

  /** Every block starts at or after `i`, and each ends before the next one starts. */
  predicate InOrder(r: seq<Block>, i: nat)
  {
    && (forall k :: 0 <= k < |r| ==> i <= r[k].start < r[k].end)
    && (forall k :: 0 <= k < |r| - 1 ==> r[k].end <= r[k + 1].start)
  }

  /**
   * `ANKI_BLOCK_RE.finditer(s)` from position `i`: well-formed matches, each the
   * regex's match at its start, in document order and without overlap.
   */
  function BlocksFrom(s: string, i: nat): (r: seq<Block>)
    requires i <= |s|
    ensures forall k :: 0 <= k < |r| ==> WellFormed(s, r[k])
    ensures AllMatches(s, r)
    ensures InOrder(r, i)
    decreases |s| - i
  {
    if i == |s| then []
    else match BlockAt(s, i)
      case Some(b) =>
        var rest := BlocksFrom(s, b.end);
        ConsWellFormed(s, b, rest);
        ConsInOrder(b, rest, i);
        [b] + rest
      case None => BlocksFrom(s, i + 1)
  }

  lemma ConsWellFormed(s: string, b: Block, rest: seq<Block>)
    requires WellFormed(s, b) && forall k :: 0 <= k < |rest| ==> WellFormed(s, rest[k])
    ensures forall k :: 0 <= k < |[b] + rest| ==> WellFormed(s, ([b] + rest)[k])
  {
    forall k | 0 <= k < |[b] + rest| ensures WellFormed(s, ([b] + rest)[k]) {
      if k > 0 { assert ([b] + rest)[k] == rest[k - 1]; }
    }
  }

  lemma ConsInOrder(b: Block, rest: seq<Block>, i: nat)
    requires i == b.start < b.end && InOrder(rest, b.end)
    ensures InOrder([b] + rest, i)
  {
    var r := [b] + rest;
    forall k | 0 <= k < |r| - 1 ensures r[k].end <= r[k + 1].start {
      assert r[k + 1] == rest[k];
      if k > 0 { assert r[k] == rest[k - 1]; }
    }
  }

  /** No match is skipped: every position outside the returned matches starts none. */
  lemma {:induction false} BlocksLeftmost(s: string, i: nat)
    requires i <= |s|
    ensures Leftmost(s, i, BlocksFrom(s, i))
    decreases |s| - i
  {
    if i < |s| {
      match BlockAt(s, i)
      case Some(b) =>
        assert BlocksFrom(s, i) == [b] + BlocksFrom(s, b.end);
        BlocksLeftmost(s, b.end);
        LeftmostCons(s, b, BlocksFrom(s, b.end));
      case None =>
        assert BlocksFrom(s, i) == BlocksFrom(s, i + 1);
        BlocksLeftmost(s, i + 1);
        LeftmostSkip(s, i, BlocksFrom(s, i + 1));
    }
  }

  lemma LeftmostCons(s: string, b: Block, rest: seq<Block>)
    requires Leftmost(s, b.end, rest)
    ensures Leftmost(s, b.start, [b] + rest)
  {
    assert ([b] + rest)[1..] == rest;
  }

  lemma LeftmostSkip(s: string, i: nat, rest: seq<Block>)
    requires i < |s| && BlockAt(s, i).None? && Leftmost(s, i + 1, rest)
    ensures Leftmost(s, i, rest)
  {
    NoBlockInExtend(s, i, if rest == [] then |s| else rest[0].start);
  }

  lemma NoBlockInExtend(s: string, i: nat, b: nat)
    requires i < |s| && BlockAt(s, i).None? && NoBlockIn(s, i + 1, b)
    ensures NoBlockIn(s, i, b)
  {
  }

  function Blocks(s: string): seq<Block>
  {
    BlocksFrom(s, 0)
  }

  /**
   * Group 1 of every match: one body per match, none holding a closing fence, each
   * lying strictly after the previous one in the document.
   */
  function BlockBodies(s: string): (r: seq<string>)
    ensures |r| == |Blocks(s)|
    ensures forall k :: 0 <= k < |r| ==> r[k] == Body(s, Blocks(s)[k]) && !Contains(r[k], Close)
    ensures forall k :: 0 <= k < |r| - 1 ==> Blocks(s)[k].bodyEnd < Blocks(s)[k + 1].bodyStart
  {
    var bs := Blocks(s);
    BodiesHaveNoClose(s, bs);
    seq(|bs|, k requires 0 <= k < |bs| => Body(s, bs[k]))
  }

  lemma BodiesHaveNoClose(s: string, bs: seq<Block>)
    requires forall k :: 0 <= k < |bs| ==> WellFormed(s, bs[k])
    ensures forall k :: 0 <= k < |bs| ==> !Contains(Body(s, bs[k]), Close)
  {
    forall k | 0 <= k < |bs| ensures !Contains(Body(s, bs[k]), Close) {
      BodyHasNoClose(s, bs[k]);
    }
  }

  /** A body never contains a newline followed by three backticks. */
  lemma BodyHasNoClose(s: string, b: Block)
    requires WellFormed(s, b)
    ensures !Contains(Body(s, b), Close)
  {
    var body := Body(s, b);
    forall k | 0 <= k <= |body| ensures !At(body, Close, k) {
      if k + 4 <= |body| {
        AtInSlice(s, b.bodyStart, b.bodyEnd, Close, b.bodyStart + k);
      }
    }
  }

  /** Any capitalization of the tag opens a block. */
  lemma AnyCaseOpens(s: string, i: nat)
    requires At(s, "```", i) && i + 7 <= |s|
    requires Lower(s[i + 3..i + 7]) == "anki"
    ensures Opens(s, i)
  {
    var tag := s[i + 3..i + 7];
    forall k | 0 <= k < 4 ensures FoldsTo(s[i + 3 + k], "anki"[k]) {
      assert LowerChar(tag[k]) == "anki"[k];
      assert tag[k] == s[i + 3 + k];
    }
  }

  /**
   * What the regex does at one position: it fails exactly when the tag is missing
   * or no newline in the whitespace after the tag is followed, later on, by a closing
   * fence; otherwise the body starts after the last such newline and ends at the
   * first closing fence after it.
   */
  lemma BlockAtSpec(s: string, i: nat)
    requires i <= |s|
    ensures BlockAt(s, i).None? <==>
      || !Opens(s, i)
      || NoCloseAfterNewline(s, i + 7, i + 7 + SpaceRun(s, i + 7))
    ensures BlockAt(s, i).Some? ==>
      var b := BlockAt(s, i).value;
      var n := i + 7 + SpaceRun(s, i + 7);
      && i + 7 < b.bodyStart <= n
      && FindFrom(s, Close, b.bodyStart) == Some(b.bodyEnd)
      && NoCloseAfterNewline(s, b.bodyStart, n)
  {
    if Opens(s, i) {
      var n := SpaceRun(s, i + 7);
      if TryNewlines(s, i, i + 7, n).None? {
        TryNewlinesNone(s, i, i + 7, n);
      } else {
        TryNewlinesSome(s, i, i + 7, n);
      }
    }
  }

  /** The closing fence cannot start in the last three characters before it. */
  lemma NoCloseInFence(body: string, q: int)
    requires 8 + |body| - 4 < q < 8 + |body|
    ensures !At("```anki\n" + body + Close, Close, q)
  {
    var s := "```anki\n" + body + Close;
    var e := 8 + |body|;
    assert s[e] == '\n';
    if At(s, Close, q) {
      assert s[q..q + 4][e - q] == s[e];
    }
  }

  /** No closing fence starts inside the body. */
  lemma NoCloseInBody(body: string)
    requires !Contains(body, Close)
    ensures forall q :: 8 <= q < 8 + |body| ==> !At("```anki\n" + body + Close, Close, q)
  {
    var s := "```anki\n" + body + Close;
    var e := 8 + |body|;
    assert s[8..e] == body;
    forall q | 8 <= q < e ensures !At(s, Close, q) {
      if q + 4 <= e {
        AtInSlice(s, 8, e, Close, q);
      } else {
        NoCloseInFence(body, q);
      }
    }
  }

  /** In `"```anki\n" + body + Close` the first closing fence after the opening line is the last one. */
  lemma SingleBlockClose(body: string)
    requires !Contains(body, Close)
    ensures FindFrom("```anki\n" + body + Close, Close, 8) == Some(8 + |body|)
  {
    var s := "```anki\n" + body + Close;
    var e := 8 + |body|;
    SuffixAt("```anki\n" + body, Close);
    NoCloseInBody(body);
    FindFromFirst(s, Close, 8, e);
  }

  /** The regex matches such a document at its start, the body being everything between the fences. */
  lemma SingleBlockMatch(body: string)
    requires !Contains(body, Close)
    requires body == [] || !IsSpace(body[0])
    ensures var s := "```anki\n" + body + Close;
      BlockAt(s, 0) == Some(Block(0, 8, 8 + |body|, 12 + |body|))
  {
    var s := "```anki\n" + body + Close;
    SingleBlockClose(body);
    assert At(s, "```", 0) && At(s, "anki", 3);
    AtIsAtIgnoreCase(s, "anki", 3);
    if body == [] {
      assert s[9] == '`' && SpaceRun(s, 9) == 0;
      assert SpaceRun(s, 7) == 2;
      assert FindFrom(s, Close, 9) == None;
    } else {
      assert s[8] == body[0];
      assert SpaceRun(s, 7) == 1;
    }
  }

  /** A document that is one fenced block yields exactly its body. */
  lemma SingleBlock(body: string)
    requires !Contains(body, Close)
    requires body == [] || !IsSpace(body[0])
    ensures BlockBodies("```anki\n" + body + Close) == [body]
  {
    var s := "```anki\n" + body + Close;
    var b := Block(0, 8, 8 + |body|, 12 + |body|);
    SingleBlockMatch(body);
    assert BlocksFrom(s, b.end) == [];
    assert Blocks(s) == [b];
    assert Body(s, b) == body;
  }
}
