/**
 * Local images in a card field: `IMG_SRC_RE = <img\s+[^>]*src="(?!https?://|data:)([^"]+)"[^>]*>`
 * (IGNORECASE) and `process_field_for_images`, which substitutes every match through
 * `replace_src` and collects the absolute paths of the image files it finds.
 */
module ImageTags {
  import opened Wrappers
  import opened Strings
  import opened Paths

  /** One match: the tag is `s[start..end]`, group 1 is `s[srcAt + 5..valueEnd]`. */
  datatype ImgMatch = ImgMatch(start: nat, srcAt: nat, valueEnd: nat, end: nat)

  /** The negative lookahead `(?!https?://|data:)` fails at `v`. */
  predicate Excluded(s: string, v: int)
  {
    AtIgnoreCase(s, "http://", v) || AtIgnoreCase(s, "https://", v) || AtIgnoreCase(s, "data:", v)
  }

  /** What every match satisfies. */
  predicate IsImg(s: string, m: ImgMatch)
  {
    && m.start + 5 <= m.srcAt
    && m.srcAt + 5 < m.valueEnd < m.end <= |s|
    && AtIgnoreCase(s, "<img", m.start)
    && IsSpace(s[m.start + 4])
    && (forall k :: m.start + 5 <= k < m.srcAt ==> s[k] != '>')
    && AtIgnoreCase(s, "src=\"", m.srcAt)
    && !Excluded(s, m.srcAt + 5)
    && s[m.valueEnd] == '"'
    && (forall k :: m.srcAt + 5 <= k < m.valueEnd ==> s[k] != '"')
    && s[m.end - 1] == '>'
    && (forall k :: m.valueEnd < k < m.end - 1 ==> s[k] != '>')
  }

  /** `match.group(1)`. */
  function Value(s: string, m: ImgMatch): string
    requires IsImg(s, m)
  {
    s[m.srcAt + 5..m.valueEnd]
  }

  /** `match.group(0)`. */
  function Tag(s: string, m: ImgMatch): string
    requires IsImg(s, m)
  {
    s[m.start..m.end]
  }

  /**
   * The rest of the regex once `[^>]*` has stopped at `t`: `src="`, the lookahead,
   * the value up to the next quote (at least one character), then anything up to
   * the first `>`.
   */
  function SrcAt(s: string, i: nat, t: nat): (r: Option<ImgMatch>)
    requires t <= |s|
    ensures r.Some? ==> r.value.start == i && r.value.srcAt == t
  {
    if !AtIgnoreCase(s, "src=\"", t) || Excluded(s, t + 5) then None
    else
      FindCharSpec(s, '"', t + 5);
      match FindChar(s, '"', t + 5)
      case None => None
      case Some(q) =>
        if q == t + 5 then None
        else match FindChar(s, '>', q + 1)
          case None => None
          case Some(g) => Some(ImgMatch(i, t, q, g + 1))
  }

  /** Greedy `[^>]*` backing off: the stopping points `lo <= t < lo + k`, tried from the last. */
  function TrySrc(s: string, i: nat, lo: nat, k: nat): (r: Option<ImgMatch>)
    requires lo + k <= |s|
    ensures r.Some? ==> lo <= r.value.srcAt < lo + k && SrcAt(s, i, r.value.srcAt) == r
    decreases k
  {
    if k == 0 then None
    else if SrcAt(s, i, lo + k - 1).Some? then SrcAt(s, i, lo + k - 1)
    else TrySrc(s, i, lo, k - 1)
  }

  /** The rest of the regex matches from no stopping point in `[a, b)`. */
  predicate NoSrcIn(s: string, i: nat, a: nat, b: nat)
    requires b <= |s|
  {
    forall t :: a <= t < b ==> SrcAt(s, i, t).None?
  }

  lemma NoSrcInExtend(s: string, i: nat, a: nat, b: nat)
    requires a <= b < |s| && NoSrcIn(s, i, a, b) && SrcAt(s, i, b).None?
    ensures NoSrcIn(s, i, a, b + 1)
  {
  }

  /** No stopping point found means the rest matches from none of them. */
  lemma {:induction false} TrySrcNone(s: string, i: nat, lo: nat, k: nat)
    requires lo + k <= |s|
    ensures TrySrc(s, i, lo, k).None? ==> NoSrcIn(s, i, lo, lo + k)
    decreases k
  {
    if k == 0 {
      assert NoSrcIn(s, i, lo, lo);
    } else if TrySrc(s, i, lo, k).None? {
      assert SrcAt(s, i, lo + k - 1).None?;
      TrySrcNone(s, i, lo, k - 1);
      NoSrcInExtend(s, i, lo, lo + k - 1);
    }
  }

  /** The stopping point taken is the last one from which the rest matches. */
  lemma {:induction false} TrySrcSome(s: string, i: nat, lo: nat, k: nat)
    requires lo + k <= |s|
    ensures var r := TrySrc(s, i, lo, k);
      r.Some? ==> NoSrcIn(s, i, r.value.srcAt + 1, lo + k)
    decreases k
  {
    if k > 0 {
      if SrcAt(s, i, lo + k - 1).Some? {
        assert NoSrcIn(s, i, lo + k, lo + k);
      } else {
        TrySrcSome(s, i, lo, k - 1);
        TrySrcSkip(s, i, lo, k);
      }
    }
  }

  lemma TrySrcSkip(s: string, i: nat, lo: nat, k: nat)
    requires 0 < k && lo + k <= |s| && SrcAt(s, i, lo + k - 1).None?
    requires var r := TrySrc(s, i, lo, k - 1);
      r.Some? ==> NoSrcIn(s, i, r.value.srcAt + 1, lo + k - 1)
    ensures var r := TrySrc(s, i, lo, k);
      r.Some? ==> NoSrcIn(s, i, r.value.srcAt + 1, lo + k)
  {
    var r := TrySrc(s, i, lo, k - 1);
    assert TrySrc(s, i, lo, k) == r;
    if r.Some? {
      NoSrcInExtend(s, i, r.value.srcAt + 1, lo + k - 1);
    }
  }

  /** Where `[^>]*` after the first space must stop: the first `>` after `<img `, or the end. */
  function Limit(s: string, i: nat): (f: nat)
    requires i + 5 <= |s|
    ensures i + 5 <= f <= |s|
  {
    FindCharSpec(s, '>', i + 5);
    match FindChar(s, '>', i + 5)
    case Some(f) => f
    case None => |s|
  }

  /** The limit is the first `>` from `i + 5` on, or the end when there is none. */
  lemma LimitSpec(s: string, i: nat)
    requires i + 5 <= |s|
    ensures forall k :: i + 5 <= k < Limit(s, i) ==> s[k] != '>'
    ensures Limit(s, i) == |s| || s[Limit(s, i)] == '>'
  {
    FindCharSpec(s, '>', i + 5);
  }

  /**
   * The regex tried at position `i`. Since the whitespace `\s+` takes is itself
   * free of `>`, the candidates for `src="` are all positions from the second
   * character after `<img` up to the first `>`, and the greedy `[^>]*` settles on the
   * last one from which the rest matches.
   */
  function ImgAt(s: string, i: nat): (r: Option<ImgMatch>)
    requires i <= |s|
    ensures r.Some? ==> IsImg(s, r.value) && r.value.start == i
  {
    if !AtIgnoreCase(s, "<img", i) || i + 4 == |s| || !IsSpace(s[i + 4]) then None
    else
      var r := TrySrc(s, i, i + 5, Limit(s, i) - (i + 5));
      if r.Some? then
        CandidateIsImg(s, i, r.value.srcAt);
        r
      else r
  }

  lemma CandidateIsImg(s: string, i: nat, t: nat)
    requires AtIgnoreCase(s, "<img", i) && i + 4 < |s| && IsSpace(s[i + 4])
    requires i + 5 <= t < Limit(s, i) && SrcAt(s, i, t).Some?
    ensures IsImg(s, SrcAt(s, i, t).value)
  {
    var q := FindChar(s, '"', t + 5).value;
    LimitSpec(s, i);
    FindCharSpec(s, '"', t + 5);
    FindCharSpec(s, '>', q + 1);
  }

  /**
   * The regex at one position fails exactly when the tag opening is missing or no
   * candidate before the first `>` lets the rest match.
   */
  lemma ImgAtNone(s: string, i: nat)
    requires i <= |s|
    ensures ImgAt(s, i).None? <==>
      || !AtIgnoreCase(s, "<img", i) || i + 4 == |s| || !IsSpace(s[i + 4])
      || NoSrcIn(s, i, i + 5, Limit(s, i))
  {
    if AtIgnoreCase(s, "<img", i) && i + 4 < |s| && IsSpace(s[i + 4]) {
      TrySrcNone(s, i, i + 5, Limit(s, i) - (i + 5));
    }
  }

  /** A match uses the last candidate before the first `>` from which the rest matches. */
  lemma ImgAtLastCandidate(s: string, i: nat)
    requires i <= |s| && ImgAt(s, i).Some?
    ensures var t := ImgAt(s, i).value.srcAt;
      && i + 5 <= t < Limit(s, i)
      && SrcAt(s, i, t) == ImgAt(s, i)
      && NoSrcIn(s, i, t + 1, Limit(s, i))
  {
    TrySrcSome(s, i, i + 5, Limit(s, i) - (i + 5));
  }

  /** A value starting with `http://`, `https://` or `data:`, in any case, is never matched. */
  lemma RemoteSrcNeverMatched(s: string, i: nat)
    requires i <= |s| && ImgAt(s, i).Some?
    ensures var v := Value(s, ImgAt(s, i).value);
      !AtIgnoreCase(v, "http://", 0) && !AtIgnoreCase(v, "https://", 0) && !AtIgnoreCase(v, "data:", 0)
  {
    var m := ImgAt(s, i).value;
    var v := Value(s, m);
    forall pat: string | AtIgnoreCase(v, pat, 0)
      ensures AtIgnoreCase(s, pat, m.srcAt + 5)
    {
      forall k | 0 <= k < |pat| ensures FoldsTo(s[m.srcAt + 5 + k], pat[k]) {
        assert v[k] == s[m.srcAt + 5 + k];
      }
    }
  }

  /** The attribute text `src="<x>"`. */
  function SrcAttr(x: string): string
  {
    "src=\"" + x + "\""
  }

  /**
   * `replace_src` for one match: when the resolved path is a file, the first
   * `src="<value>"` in the tag (written in lower case) becomes `src="<file name>"`
   * and the path is recorded; otherwise the tag is kept.
   */
  function ReplaceSrc(tag: string, value: string, dir: Path, fs: FileSystem): (r: (string, Option<Path>))
    ensures r.1.Some? <==> fs.isFile(fs.resolve(dir, value))
    ensures r.1.Some? ==> r.1.value == fs.resolve(dir, value)
    ensures r.1.None? || !Contains(tag, SrcAttr(value)) ==> r.0 == tag
  {
    ReplaceFirstSpec(tag, SrcAttr(value), SrcAttr(Name(fs.resolve(dir, value))));
    var abs := fs.resolve(dir, value);
    if fs.isFile(abs) then
      (ReplaceFirst(tag, SrcAttr(value), SrcAttr(Name(abs))), Some(abs))
    else (tag, None)
  }

  /** The substituted text and the paths `replace_src` appended, in order. */
  datatype Rewrite = Rewrite(text: string, found: seq<Path>)

  /** What one step of the substitution emits, the path it records, and where it resumes. */
  datatype Piece = Piece(text: string, path: Option<Path>, next: nat)

  /**
   * One step of `IMG_SRC_RE.sub` at position `i`: a match is replaced by what
   * `replace_src` returns and the scan resumes after it; otherwise one character is
   * copied.
   */
  function Step(s: string, i: nat, dir: Path, fs: FileSystem): (r: Piece)
    requires i < |s|
    ensures i < r.next <= |s|
    ensures r.path.Some? ==> fs.isFile(r.path.value)
  {
    match ImgAt(s, i)
    case None => Piece([s[i]], None, i + 1)
    case Some(m) =>
      var rep := ReplaceSrc(Tag(s, m), Value(s, m), dir, fs);
      Piece(rep.0, rep.1, m.end)
  }

  /** `IMG_SRC_RE.sub(replace_src, s)` from position `i`; every recorded path is a file. */
  function SubFrom(s: string, i: nat, dir: Path, fs: FileSystem): (r: Rewrite)
    requires i <= |s|
    ensures forall k :: 0 <= k < |r.found| ==> fs.isFile(r.found[k])
    decreases |s| - i
  {
    if i == |s| then Rewrite("", [])
    else
      var piece := Step(s, i, dir, fs);
      var rest := SubFrom(s, piece.next, dir, fs);
      Rewrite(piece.text + rest.text, Collected(piece.path, rest.found, fs))
  }

  /** The path `replace_src` recorded, if any, before the ones recorded after it. */
  function Collected(p: Option<Path>, rest: seq<Path>, fs: FileSystem): (r: seq<Path>)
    requires p.Some? ==> fs.isFile(p.value)
    requires forall k :: 0 <= k < |rest| ==> fs.isFile(rest[k])
    ensures forall k :: 0 <= k < |r| ==> fs.isFile(r[k])
  {
    if p.Some? then [p.value] + rest else rest
  }

  /** One step of the substitution, spelled out. */
  lemma SubFromUnfold(s: string, i: nat, dir: Path, fs: FileSystem)
    requires i < |s|
    ensures var piece := Step(s, i, dir, fs);
      var rest := SubFrom(s, piece.next, dir, fs);
      && SubFrom(s, i, dir, fs).text == piece.text + rest.text
      && SubFrom(s, i, dir, fs).found == PathOf(piece) + rest.found
  {
    var piece := Step(s, i, dir, fs);
    var rest := SubFrom(s, piece.next, dir, fs);
    if piece.path.None? {
      assert [] + rest.found == rest.found;
    }
  }

  function Substitute(s: string, dir: Path, fs: FileSystem): Rewrite
  {
    SubFrom(s, 0, dir, fs)
  }

  /** The media strings of some paths. */
  function MediaOf(ps: seq<Path>): set<string>
  {
    set p | p in ps :: PathText(p)
  }

  lemma MediaOfSnoc(ps: seq<Path>, p: Path)
    ensures MediaOf(ps + [p]) == MediaOf(ps) + {PathText(p)}
  {
    assert forall q :: q in ps + [p] <==> q in ps || q == p;
  }

  /** The path a step records, as a sequence of at most one. */
  function PathOf(piece: Piece): seq<Path>
  {
    if piece.path.Some? then [piece.path.value] else []
  }

  /** What has been emitted and recorded before position `i` absorbs one more step. */
  lemma SubFromPrefix(s: string, i: nat, dir: Path, fs: FileSystem, text: string, found: seq<Path>)
    requires i < |s|
    ensures var piece := Step(s, i, dir, fs);
      var rest := SubFrom(s, piece.next, dir, fs);
      && (text + piece.text) + rest.text == text + SubFrom(s, i, dir, fs).text
      && (found + PathOf(piece)) + rest.found == found + SubFrom(s, i, dir, fs).found
  {
    var piece := Step(s, i, dir, fs);
    var rest := SubFrom(s, piece.next, dir, fs);
    SubFromUnfold(s, i, dir, fs);
    ConcatAssoc(text, piece.text, rest.text);
    AppendAssoc(found, PathOf(piece), rest.found);
  }

  lemma AppendAssoc(a: seq<Path>, b: seq<Path>, c: seq<Path>)
    ensures (a + b) + c == a + (b + c)
  {
  }

  /**
   * `process_field_for_images`: the substituted text, and the paths of the images
   * found, each once (`list(set(found_media_in_field))`).
   */
  method ProcessFieldForImages(fieldContent: string, mdFileDir: Path, fs: FileSystem)
    returns (processed: string, media: seq<string>)
    ensures processed == Substitute(fieldContent, mdFileDir, fs).text
    ensures Distinct(media)
    ensures forall x :: x in media <==> x in MediaOf(Substitute(fieldContent, mdFileDir, fs).found)
  {
    ghost var total := Substitute(fieldContent, mdFileDir, fs);
    var found: seq<Path> := [];
    processed := "";
    var i := 0;
    while i < |fieldContent|
      invariant i <= |fieldContent|
      invariant processed + SubFrom(fieldContent, i, mdFileDir, fs).text == total.text
      invariant found + SubFrom(fieldContent, i, mdFileDir, fs).found == total.found
      decreases |fieldContent| - i
    {
      var piece := Step(fieldContent, i, mdFileDir, fs);
      SubFromPrefix(fieldContent, i, mdFileDir, fs, processed, found);
      processed := processed + piece.text;
      found := found + PathOf(piece);
      i := piece.next;
    }
    assert processed == total.text && found == total.found;
    media := UniqueMedia(found);
  }

  /** `list(set(str(p) for p in found))`: each path's text once. */
  method UniqueMedia(found: seq<Path>) returns (media: seq<string>)
    ensures Distinct(media)
    ensures forall x :: x in media <==> x in MediaOf(found)
  {
    media := [];
    var k := 0;
    while k < |found|
      invariant k <= |found|
      invariant Distinct(media)
      invariant forall x :: x in media <==> x in MediaOf(found[..k])
    {
      MediaOfSnoc(found[..k], found[k]);
      assert found[..k + 1] == found[..k] + [found[k]];
      if PathText(found[k]) !in media {
        media := media + [PathText(found[k])];
      }
      k := k + 1;
    }
    assert found[..k] == found;
  }

  lemma ConsSlice(s: string, i: nat, j: nat, t: string)
    requires i < j <= |s|
    ensures [s[i]] + (s[i + 1..j] + t) == s[i..j] + t
  {
    assert s[i..j] == [s[i]] + s[i + 1..j];
  }

  /** Text from `i` to `j` in which no match starts is copied unchanged. */
  lemma {:induction false} CopiedUpTo(s: string, i: nat, j: nat, dir: Path, fs: FileSystem)
    requires i <= j <= |s|
    requires forall p :: i <= p < j ==> ImgAt(s, p).None?
    ensures SubFrom(s, i, dir, fs).text == s[i..j] + SubFrom(s, j, dir, fs).text
    ensures SubFrom(s, i, dir, fs).found == SubFrom(s, j, dir, fs).found
    decreases j - i
  {
    if i < j {
      CopiedUpTo(s, i + 1, j, dir, fs);
      SubFromNoMatch(s, i, dir, fs);
      ConsSlice(s, i, j, SubFrom(s, j, dir, fs).text);
    }
  }

  /** Where no match starts, one character is copied. */
  lemma SubFromNoMatch(s: string, i: nat, dir: Path, fs: FileSystem)
    requires i < |s| && ImgAt(s, i).None?
    ensures SubFrom(s, i, dir, fs).text == [s[i]] + SubFrom(s, i + 1, dir, fs).text
    ensures SubFrom(s, i, dir, fs).found == SubFrom(s, i + 1, dir, fs).found
  {
    SubFromUnfold(s, i, dir, fs);
    assert Step(s, i, dir, fs) == Piece([s[i]], None, i + 1);
  }

  /** A step at which no local image file is found copies its text unchanged. */
  lemma StepCopies(s: string, i: nat, dir: Path, fs: FileSystem)
    requires i < |s|
    requires ImgAt(s, i).Some? ==> !fs.isFile(fs.resolve(dir, Value(s, ImgAt(s, i).value)))
    ensures var next := Step(s, i, dir, fs).next;
      && SubFrom(s, i, dir, fs).text == s[i..next] + SubFrom(s, next, dir, fs).text
      && SubFrom(s, i, dir, fs).found == SubFrom(s, next, dir, fs).found
  {
    SubFromUnfold(s, i, dir, fs);
    var piece := Step(s, i, dir, fs);
    assert piece.text == s[i..piece.next] && piece.path.None?;
  }

  lemma SplitSlice(s: string, i: nat, j: nat)
    requires i <= j <= |s|
    ensures s[i..] == s[i..j] + s[j..]
  {
  }

  /**
   * When no image a match points at is a file, the text comes back unchanged and
   * nothing is collected: in particular on text without any qualifying `<img>`.
   */
  lemma {:induction false} UnchangedWithoutLocalFiles(s: string, i: nat, dir: Path, fs: FileSystem)
    requires i <= |s|
    requires forall p :: i <= p <= |s| && ImgAt(s, p).Some? ==>
      !fs.isFile(fs.resolve(dir, Value(s, ImgAt(s, p).value)))
    ensures SubFrom(s, i, dir, fs) == Rewrite(s[i..], [])
    decreases |s| - i
  {
    if i < |s| {
      StepCopies(s, i, dir, fs);
      var next := Step(s, i, dir, fs).next;
      UnchangedWithoutLocalFiles(s, next, dir, fs);
      SplitSlice(s, i, next);
    }
  }

  lemma NoImageIdentity(s: string, dir: Path, fs: FileSystem)
    requires forall p :: 0 <= p <= |s| ==> ImgAt(s, p).None?
    ensures Substitute(s, dir, fs) == Rewrite(s, [])
  {
    UnchangedWithoutLocalFiles(s, 0, dir, fs);
  }

  /**
   * A match whose image is a file: the path is recorded, the scan resumes after the
   * tag, and the tag becomes the tag with its first lower-case `src="<value>"`
   * replaced by `src="<file name>"` -- at the matched attribute or earlier when that
   * attribute is written in lower case, nowhere when the tag holds no such text.
   */
  lemma ExistingFileRewritten(s: string, i: nat, dir: Path, fs: FileSystem)
    requires i < |s| && ImgAt(s, i).Some?
    requires fs.isFile(fs.resolve(dir, Value(s, ImgAt(s, i).value)))
    ensures var m := ImgAt(s, i).value;
      var abs := fs.resolve(dir, Value(s, m));
      var tag := Tag(s, m);
      var pat := SrcAttr(Value(s, m));
      var r := Step(s, i, dir, fs);
      && r.path == Some(abs) && r.next == m.end
      && (At(s, "src=\"", m.srcAt) ==>
            exists k :: && 0 <= k <= m.srcAt - m.start && FirstAt(tag, pat, k)
                        && r.text == tag[..k] + SrcAttr(Name(abs)) + tag[k + |pat|..])
      && (!Contains(tag, pat) ==> r.text == tag)
  {
    var m := ImgAt(s, i).value;
    StepOnMatch(s, i, dir, fs);
    if At(s, "src=\"", m.srcAt) {
      MatchedSrcRewritten(s, m, dir, fs);
    }
    TagWithoutSrcKept(Tag(s, m), Value(s, m), dir, fs);
  }

  /** A lower-case matched attribute is rewritten, or an identical one before it. */
  lemma MatchedSrcRewritten(s: string, m: ImgMatch, dir: Path, fs: FileSystem)
    requires IsImg(s, m) && At(s, "src=\"", m.srcAt)
    requires fs.isFile(fs.resolve(dir, Value(s, m)))
    ensures var tag := Tag(s, m);
      var v := Value(s, m);
      var pat := SrcAttr(v);
      exists k :: && 0 <= k <= m.srcAt - m.start && FirstAt(tag, pat, k)
                  && ReplaceSrc(tag, v, dir, fs).0 == tag[..k] + SrcAttr(Name(fs.resolve(dir, v))) + tag[k + |pat|..]
  {
    MatchedAttributeInTag(s, m);
    FirstSrcRewritten(Tag(s, m), Value(s, m), m.srcAt - m.start, dir, fs);
  }

  /** A tag without the text `src="<value>"` is kept as it is. */
  lemma TagWithoutSrcKept(tag: string, v: string, dir: Path, fs: FileSystem)
    ensures !Contains(tag, SrcAttr(v)) ==> ReplaceSrc(tag, v, dir, fs).0 == tag
  {
    ReplaceFirstSpec(tag, SrcAttr(v), SrcAttr(Name(fs.resolve(dir, v))));
  }

  /** At a match, the step emits what `replace_src` returns and resumes after the tag. */
  lemma StepOnMatch(s: string, i: nat, dir: Path, fs: FileSystem)
    requires i < |s| && ImgAt(s, i).Some?
    ensures var m := ImgAt(s, i).value;
      var rep := ReplaceSrc(Tag(s, m), Value(s, m), dir, fs);
      Step(s, i, dir, fs) == Piece(rep.0, rep.1, m.end)
  {
  }

  /** A lower-case matched attribute appears, quotes included, inside the tag. */
  lemma MatchedAttributeInTag(s: string, m: ImgMatch)
    requires IsImg(s, m) && At(s, "src=\"", m.srcAt)
    ensures At(Tag(s, m), SrcAttr(Value(s, m)), m.srcAt - m.start)
  {
    var v := Value(s, m);
    assert At(s, v, m.srcAt + 5);
    assert s[m.valueEnd..m.valueEnd + 1] == "\"";
    AtConcat(s, "src=\"", v, m.srcAt);
    AtConcat(s, "src=\"" + v, "\"", m.srcAt);
    AtInSlice(s, m.start, m.end, SrcAttr(v), m.srcAt);
  }

  /** With `src="<value>"` at `t` in the tag, the first such text, at or before `t`, is rewritten. */
  lemma FirstSrcRewritten(tag: string, v: string, t: nat, dir: Path, fs: FileSystem)
    requires At(tag, SrcAttr(v), t)
    requires fs.isFile(fs.resolve(dir, v))
    ensures var pat := SrcAttr(v);
      exists k :: && 0 <= k <= t && FirstAt(tag, pat, k)
                  && ReplaceSrc(tag, v, dir, fs).0 == tag[..k] + SrcAttr(Name(fs.resolve(dir, v))) + tag[k + |pat|..]
  {
    var pat := SrcAttr(v);
    var k := FindFrom(tag, pat, 0).value;
    assert ReplaceSrc(tag, v, dir, fs).0 == ReplaceFirst(tag, pat, SrcAttr(Name(fs.resolve(dir, v))));
    assert k <= t && FirstAt(tag, pat, k);
  }

  /** `m` is what the regex matches at its own start. */
  predicate MatchAt(s: string, m: ImgMatch)
  {
    m.start <= |s| && ImgAt(s, m.start) == Some(m)
  }

  /** Every match of `ms` is a well-formed tag found by the regex at or after `i`. */
  predicate Scanned(s: string, ms: seq<ImgMatch>, i: nat)
  {
    forall k :: 0 <= k < |ms| ==> IsImg(s, ms[k]) && i <= ms[k].start && MatchAt(s, ms[k])
  }

  /**
   * The matches `IMG_SRC_RE.sub` meets from position `i`, in order and without
   * overlap: after a match the scan resumes where it ends, elsewhere at the next
   * character.
   */
  function MatchesFrom(s: string, i: nat): (r: seq<ImgMatch>)
    requires i <= |s|
    ensures Scanned(s, r, i)
    ensures MatchesInOrder(r)
    decreases |s| - i
  {
    if i == |s| then []
    else match ImgAt(s, i)
      case None => MatchesFrom(s, i + 1)
      case Some(m) =>
        var rest := MatchesFrom(s, m.end);
        ConsMatches(s, m, rest);
        ConsMatchesInOrder(m, rest);
        [m] + rest
  }

  /** Each match ends before the next one starts. */
  predicate MatchesInOrder(ms: seq<ImgMatch>)
  {
    forall k :: 0 <= k < |ms| - 1 ==> ms[k].end <= ms[k + 1].start
  }

  lemma ConsMatches(s: string, m: ImgMatch, rest: seq<ImgMatch>)
    requires IsImg(s, m) && MatchAt(s, m) && Scanned(s, rest, m.end)
    ensures Scanned(s, [m] + rest, m.start)
  {
    var r := [m] + rest;
    forall k | 0 <= k < |r| ensures IsImg(s, r[k]) && m.start <= r[k].start && MatchAt(s, r[k]) {
      if k > 0 { assert r[k] == rest[k - 1]; }
    }
  }

  lemma ConsMatchesInOrder(m: ImgMatch, rest: seq<ImgMatch>)
    requires MatchesInOrder(rest) && (rest == [] || m.end <= rest[0].start)
    ensures MatchesInOrder([m] + rest)
  {
    var r := [m] + rest;
    forall k | 0 <= k < |r| - 1 ensures r[k].end <= r[k + 1].start {
      assert r[k + 1] == rest[k];
      if k > 0 { assert r[k] == rest[k - 1]; }
    }
  }

  function Matches(s: string): seq<ImgMatch>
  {
    MatchesFrom(s, 0)
  }

  /** The path `replace_src` resolves a match's `src` to. */
  function Resolved(s: string, m: ImgMatch, dir: Path, fs: FileSystem): Path
    requires IsImg(s, m)
  {
    fs.resolve(dir, Value(s, m))
  }

  /** The resolved paths of those matches whose image is a file, in match order. */
  function FilesOf(s: string, ms: seq<ImgMatch>, dir: Path, fs: FileSystem): seq<Path>
    requires forall k :: 0 <= k < |ms| ==> IsImg(s, ms[k])
    decreases |ms|
  {
    if ms == [] then []
    else
      var abs := Resolved(s, ms[0], dir, fs);
      (if fs.isFile(abs) then [abs] else []) + FilesOf(s, ms[1..], dir, fs)
  }

  /** The paths the substitution records are those of the matched images that are files, in order. */
  lemma {:induction false} FoundAreMatchedFiles(s: string, i: nat, dir: Path, fs: FileSystem)
    requires i <= |s|
    ensures SubFrom(s, i, dir, fs).found == FilesOf(s, MatchesFrom(s, i), dir, fs)
    decreases |s| - i
  {
    if i < |s| {
      SubFromUnfold(s, i, dir, fs);
      match ImgAt(s, i)
      case None =>
        assert MatchesFrom(s, i) == MatchesFrom(s, i + 1);
        assert Step(s, i, dir, fs).path.None? && Step(s, i, dir, fs).next == i + 1;
        FoundAreMatchedFiles(s, i + 1, dir, fs);
      case Some(m) =>
        var rest := MatchesFrom(s, m.end);
        assert MatchesFrom(s, i) == [m] + rest;
        assert ([m] + rest)[1..] == rest;
        StepOnMatch(s, i, dir, fs);
        FoundAreMatchedFiles(s, m.end, dir, fs);
    }
  }

  /** A path is among the files of some matches exactly when one of them resolves to it and it is a file. */
  lemma {:induction false} InFilesOf(s: string, ms: seq<ImgMatch>, dir: Path, fs: FileSystem, p: Path)
    requires forall k :: 0 <= k < |ms| ==> IsImg(s, ms[k])
    ensures p in FilesOf(s, ms, dir, fs) <==>
      exists k :: 0 <= k < |ms| && fs.isFile(Resolved(s, ms[k], dir, fs)) && p == Resolved(s, ms[k], dir, fs)
    decreases |ms|
  {
    if ms != [] {
      var tail := ms[1..];
      InFilesOf(s, tail, dir, fs, p);
      if exists k :: 0 <= k < |tail| && fs.isFile(Resolved(s, tail[k], dir, fs)) && p == Resolved(s, tail[k], dir, fs) {
        var k :| 0 <= k < |tail| && fs.isFile(Resolved(s, tail[k], dir, fs)) && p == Resolved(s, tail[k], dir, fs);
        assert ms[k + 1] == tail[k];
      }
      if exists k :: 0 <= k < |ms| && fs.isFile(Resolved(s, ms[k], dir, fs)) && p == Resolved(s, ms[k], dir, fs) {
        var k :| 0 <= k < |ms| && fs.isFile(Resolved(s, ms[k], dir, fs)) && p == Resolved(s, ms[k], dir, fs);
        if k > 0 { assert tail[k - 1] == ms[k]; }
      }
    }
  }

  /**
   * The media of a field are exactly the texts of the resolved paths of the matched
   * images that are files: every such image is collected, and nothing else is.
   */
  lemma CollectedExactly(s: string, dir: Path, fs: FileSystem, x: string)
    ensures var ms := Matches(s);
      x in MediaOf(Substitute(s, dir, fs).found) <==>
        exists k :: 0 <= k < |ms| && fs.isFile(Resolved(s, ms[k], dir, fs)) && x == PathText(Resolved(s, ms[k], dir, fs))
  {
    var ms := Matches(s);
    FoundAreMatchedFiles(s, 0, dir, fs);
    if x in MediaOf(Substitute(s, dir, fs).found) {
      var p :| p in FilesOf(s, ms, dir, fs) && PathText(p) == x;
      InFilesOf(s, ms, dir, fs, p);
    }
    if exists k :: 0 <= k < |ms| && fs.isFile(Resolved(s, ms[k], dir, fs)) && x == PathText(Resolved(s, ms[k], dir, fs)) {
      var k :| 0 <= k < |ms| && fs.isFile(Resolved(s, ms[k], dir, fs)) && x == PathText(Resolved(s, ms[k], dir, fs));
      InFilesOf(s, ms, dir, fs, Resolved(s, ms[k], dir, fs));
    }
  }

  /** Every matched image that is a file, wherever it stands in the field, is among the media. */
  lemma MatchedFileCollected(s: string, dir: Path, fs: FileSystem, k: nat)
    requires k < |Matches(s)| && fs.isFile(Resolved(s, Matches(s)[k], dir, fs))
    ensures PathText(Resolved(s, Matches(s)[k], dir, fs)) in MediaOf(Substitute(s, dir, fs).found)
  {
    CollectedExactly(s, dir, fs, PathText(Resolved(s, Matches(s)[k], dir, fs)));
  }
}
