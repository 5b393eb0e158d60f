/**
 * `find_anki_cards_in_file`: every fenced block of a note file whose body parses
 * to a mapping holding a value for every mapped key becomes one card record; the
 * file's media are the images the accepted cards refer to.
 */
module CardExtraction {
  import opened Wrappers
  import opened Strings
  import opened Yaml
  import opened Paths
  import opened ImageTags
  import opened AnkiBlocks
  import opened DeckNames
  import opened ModelFromYaml

  /** One card record: `{"fields": …, "tags": …, "deck": …, "guid_basis": …}`. */
  datatype Card = Card(fields: map<string, string>, tags: YamlValue, deck: YamlValue, guidBasis: string)

  /** What a file yields: its cards in order and the media they use. */
  datatype Extraction = Extraction(cards: seq<Card>, media: set<string>)

  /** Everything the extraction of one file depends on. */
  datatype Context = Context(
    model: Schema, root: Path, file: Path,
    parse: string -> ParsedBlock,   // yaml.safe_load on a block body
    fs: FileSystem)

  predicate ValidContext(ctx: Context)
  {
    Under(ctx.root, ctx.file)
  }

  /** A field's text: `str(value)` after image processing relative to the note's directory. */
  function FieldText(v: YamlValue, dir: Path, fs: FileSystem): string
  {
    Substitute(Show(v), dir, fs).text
  }

  /** The media that image processing finds in a field. */
  function FieldMedia(v: YamlValue, dir: Path, fs: FileSystem): set<string>
  {
    MediaOf(Substitute(Show(v), dir, fs).found)
  }

  /** The first `n` entries of the key map find a non-null value for every key other than `tags`. */
  predicate CompleteUpTo(km: KeyMap, n: nat, d: map<string, YamlValue>)
    requires n <= |km|
  {
    forall j :: 0 <= j < n && km[j].0 != "tags" ==> Get(d, km[j].0, Null) != Null
  }

  predicate Complete(km: KeyMap, d: map<string, YamlValue>)
  {
    CompleteUpTo(km, |km|, d)
  }

  /** The fields written by the first `n` entries of the key map, in order, a later write winning. */
  function MappedFields(km: KeyMap, n: nat, d: map<string, YamlValue>, dir: Path, fs: FileSystem): map<string, string>
    requires n <= |km|
  {
    if n == 0 then map[]
    else
      var prev := MappedFields(km, n - 1, d, dir, fs);
      if km[n - 1].0 == "tags" then prev
      else prev[km[n - 1].1 := FieldText(Get(d, km[n - 1].0, Null), dir, fs)]
  }

  /** The media found in the fields written by the first `n` entries. */
  function MappedMedia(km: KeyMap, n: nat, d: map<string, YamlValue>, dir: Path, fs: FileSystem): set<string>
    requires n <= |km|
  {
    if n == 0 then {}
    else
      var prev := MappedMedia(km, n - 1, d, dir, fs);
      if km[n - 1].0 == "tags" then prev
      else prev + FieldMedia(Get(d, km[n - 1].0, Null), dir, fs)
  }

  /** The last of the first `n` entries, other than `tags`, that writes field `f`. */
  function LastWriter(km: KeyMap, n: nat, f: string): (r: Option<nat>)
    requires n <= |km|
    ensures r.Some? ==> r.value < n && km[r.value].0 != "tags" && km[r.value].1 == f
  {
    if n == 0 then None
    else if km[n - 1].0 != "tags" && km[n - 1].1 == f then Some(n - 1)
    else LastWriter(km, n - 1, f)
  }

  /** No entry after the last writer writes `f`; none at all when there is no writer. */
  lemma {:induction false} LastWriterSpec(km: KeyMap, n: nat, f: string)
    requires n <= |km|
    ensures var r := LastWriter(km, n, f);
      r.Some? ==> forall j :: r.value < j < n ==> km[j].0 == "tags" || km[j].1 != f
    ensures LastWriter(km, n, f).None? ==> forall j :: 0 <= j < n ==> km[j].0 == "tags" || km[j].1 != f
  {
    if n > 0 && (km[n - 1].0 == "tags" || km[n - 1].1 != f) {
      LastWriterSpec(km, n - 1, f);
    }
  }

  /** A field is written exactly when some key other than `tags` maps to it. */
  lemma {:induction false} MappedFieldsKeys(km: KeyMap, n: nat, d: map<string, YamlValue>, dir: Path, fs: FileSystem, f: string)
    requires n <= |km|
    ensures f in MappedFields(km, n, d, dir, fs) <==> LastWriter(km, n, f).Some?
  {
    if n > 0 {
      MappedFieldsKeys(km, n - 1, d, dir, fs, f);
      if km[n - 1].0 == "tags" || km[n - 1].1 != f {
        assert LastWriter(km, n, f) == LastWriter(km, n - 1, f);
      }
    }
  }

  /** A written field holds the processed value of the last key other than `tags` that maps to it. */
  lemma {:induction false} MappedFieldsValue(km: KeyMap, n: nat, d: map<string, YamlValue>, dir: Path, fs: FileSystem, f: string)
    requires n <= |km| && LastWriter(km, n, f).Some?
    ensures f in MappedFields(km, n, d, dir, fs)
    ensures MappedFields(km, n, d, dir, fs)[f] == FieldText(Get(d, km[LastWriter(km, n, f).value].0, Null), dir, fs)
  {
    if km[n - 1].0 == "tags" || km[n - 1].1 != f {
      assert LastWriter(km, n, f) == LastWriter(km, n - 1, f);
      MappedFieldsValue(km, n - 1, d, dir, fs, f);
    }
  }

  lemma MappedFieldsSpec(km: KeyMap, n: nat, d: map<string, YamlValue>, dir: Path, fs: FileSystem, f: string)
    requires n <= |km|
    ensures f in MappedFields(km, n, d, dir, fs) <==> LastWriter(km, n, f).Some?
    ensures f in MappedFields(km, n, d, dir, fs) ==>
      MappedFields(km, n, d, dir, fs)[f] == FieldText(Get(d, km[LastWriter(km, n, f).value].0, Null), dir, fs)
  {
    MappedFieldsKeys(km, n, d, dir, fs, f);
    if LastWriter(km, n, f).Some? {
      MappedFieldsValue(km, n, d, dir, fs, f);
    }
  }

  /** `source_file_field_name`: the first model field whose lower-cased name is `sourcefile`. */
  function SourceFileField(fields: seq<string>): Option<string>
  {
    FirstWithLower(fields, "sourcefile")
  }

  /** `model_def.yaml_field_map.get(key, '')`. */
  function MappedTo(km: KeyMap, key: string): string
  {
    match Lookup(km, key)
    case Some(f) => f
    case None => ""
  }

  /** `str(card_fields.get(name))`. */
  function FieldOrNone(fields: map<string, string>, name: string): string
  {
    if name in fields then fields[name] else "None"
  }

  /** `guid_basis`: question field, answer field, deck and relative path, separated by `|`. */
  function GuidBasis(fields: map<string, string>, km: KeyMap, deck: YamlValue, relative: string): (r: string)
    ensures var tail := "|" + Show(deck) + "|" + relative;
      |tail| <= |r| && r[|r| - |tail|..] == tail
  {
    var head := FieldOrNone(fields, MappedTo(km, "q")) + "|" + FieldOrNone(fields, MappedTo(km, "a"));
    var tail := "|" + Show(deck) + "|" + relative;
    assert (head + tail)[|head|..] == tail;
    head + tail
  }

  /** The card a complete mapping becomes, with the media its fields use. */
  function CardOf(ctx: Context, d: map<string, YamlValue>): (r: (Card, set<string>))
    requires ValidContext(ctx)
    ensures var sf := SourceFileField(ctx.model.fields);
      sf.Some? ==> sf.value in r.0.fields && r.0.fields[sf.value] == RelativePathText(ctx.root, ctx.file)
    ensures "deck" !in d ==> r.0.deck == Yaml.Str(DeckName(ctx.root, ctx.file))
  {
    var km := ctx.model.keyMap;
    var dir := Parent(ctx.file);
    var relative := RelativePathText(ctx.root, ctx.file);
    var mapped := MappedFields(km, |km|, d, dir, ctx.fs);
    var fields := match SourceFileField(ctx.model.fields)
      case Some(sf) => mapped[sf := relative]
      case None => mapped;
    var deck := Get(d, "deck", Yaml.Str(DeckName(ctx.root, ctx.file)));
    (Card(fields, Get(d, "tags", Yaml.EmptyList), deck, GuidBasis(fields, km, deck, relative)),
     MappedMedia(km, |km|, d, dir, ctx.fs))
  }

  /** What one block body contributes: nothing unless it parses to a complete mapping. */
  function BlockCard(ctx: Context, body: string): (r: Option<(Card, set<string>)>)
    requires ValidContext(ctx)
    ensures r.Some? <==> ctx.parse(body).Mapping? && Complete(ctx.model.keyMap, ctx.parse(body).entries)
  {
    match ctx.parse(body)
    case ParseError => None
    case NotMapping => None
    case Mapping(d) => if Complete(ctx.model.keyMap, d) then Some(CardOf(ctx, d)) else None
  }

  /** What one block contributes: a card and its media, or nothing. */
  type Contribution = Option<(Card, set<string>)>

  /** The accepted cards of a run of block outcomes, in order, with the union of their media. */
  function Collect(rs: seq<Contribution>): Extraction
  {
    if rs == [] then Extraction([], {})
    else
      var prev := Collect(rs[..|rs| - 1]);
      match rs[|rs| - 1]
      case None => prev
      case Some((card, media)) => Extraction(prev.cards + [card], prev.media + media)
  }

  /** The outcome of every block body, in order. */
  function Outcomes(ctx: Context, bodies: seq<string>): (r: seq<Contribution>)
    requires ValidContext(ctx)
    ensures |r| == |bodies|
  {
    if bodies == [] then [] else Outcomes(ctx, bodies[..|bodies| - 1]) + [BlockCard(ctx, bodies[|bodies| - 1])]
  }

  lemma {:induction false} OutcomeAt(ctx: Context, bodies: seq<string>, k: nat)
    requires ValidContext(ctx) && k < |bodies|
    ensures Outcomes(ctx, bodies)[k] == BlockCard(ctx, bodies[k])
    decreases |bodies|
  {
    var n := |bodies| - 1;
    assert bodies == bodies[..n] + [bodies[n]];
    OutcomesSnoc(ctx, bodies[..n], bodies[n]);
    if k < n {
      OutcomeAt(ctx, bodies[..n], k);
    }
  }

  /** The cards and media of a sequence of block bodies, in order. */
  function ExtractBodies(ctx: Context, bodies: seq<string>): Extraction
    requires ValidContext(ctx)
  {
    Collect(Outcomes(ctx, bodies))
  }

  /** A file's extraction; a file that cannot be read yields nothing. */
  function FileExtraction(ctx: Context, content: Option<string>): Extraction
    requires ValidContext(ctx)
  {
    match content
    case None => Extraction([], {})
    case Some(s) => ExtractBodies(ctx, BlockBodies(s))
  }

  /**
   * `find_anki_cards_in_file`. `content` is what `read_text` returns, None when
   * reading fails; `parse` stands for `yaml.safe_load`.
   */
  method FindAnkiCardsInFile(filepath: Path, rootDir: Path, model: Schema, content: Option<string>,
                             parse: string -> ParsedBlock, fs: FileSystem)
    returns (cards: seq<Card>, media: set<string>)
    requires Under(rootDir, filepath)
    ensures Extraction(cards, media) == FileExtraction(Context(model, rootDir, filepath, parse, fs), content)
  {
    ghost var ctx := Context(model, rootDir, filepath, parse, fs);
    cards, media := [], {};
    if content.None? {
      return;
    }
    var bodies := BlockBodies(content.value);
    ghost var outcomes := Outcomes(ctx, bodies);
    var b := 0;
    while b < |bodies|
      invariant b <= |bodies|
      invariant Extraction(cards, media) == Collect(outcomes[..b])
      decreases |bodies| - b
    {
      var accepted := CardFromBlock(filepath, rootDir, model, bodies[b], parse, fs);
      OutcomeAt(ctx, bodies, b);
      CollectStep(outcomes, b);
      if accepted.Some? {
        cards := cards + [accepted.value.0];
        media := media + accepted.value.1;
      }
      b := b + 1;
    }
    assert outcomes[..b] == outcomes;
  }

  /** The body of the loop over blocks: the card a block body becomes, with its media, if any. */
  method CardFromBlock(filepath: Path, rootDir: Path, model: Schema, body: string,
                       parse: string -> ParsedBlock, fs: FileSystem)
    returns (accepted: Option<(Card, set<string>)>)
    requires Under(rootDir, filepath)
    ensures accepted == BlockCard(Context(model, rootDir, filepath, parse, fs), body)
  {
    var defaultDeckName := DeckName(rootDir, filepath);
    var mdDir := Parent(filepath);
    var relative := RelativePathText(rootDir, filepath);
    var sourceFileField := SourceFileField(model.fields);
    var km := model.keyMap;
    accepted := None;
    match parse(body)
    case ParseError =>
    case NotMapping =>
    case Mapping(d) =>
      var fields, cardMedia, ok := MapFields(km, d, mdDir, fs);
      if ok {
        if sourceFileField.Some? {
          fields := fields[sourceFileField.value := relative];
        }
        var deck := Get(d, "deck", Yaml.Str(defaultDeckName));
        var card := Card(fields, Get(d, "tags", Yaml.EmptyList), deck, GuidBasis(fields, km, deck, relative));
        accepted := Some((card, cardMedia));
      }
  }

  /**
   * The inner loop over the key map: the processed fields and their media, or
   * `ok == false` at the first key (other than `tags`) whose value is missing or null.
   */
  method MapFields(km: KeyMap, d: map<string, YamlValue>, dir: Path, fs: FileSystem)
    returns (fields: map<string, string>, media: set<string>, ok: bool)
    ensures ok <==> Complete(km, d)
    ensures ok ==> fields == MappedFields(km, |km|, d, dir, fs) && media == MappedMedia(km, |km|, d, dir, fs)
  {
    fields, media, ok := map[], {}, true;
    var j := 0;
    while j < |km|
      invariant j <= |km|
      invariant CompleteUpTo(km, j, d)
      invariant fields == MappedFields(km, j, d, dir, fs) && media == MappedMedia(km, j, d, dir, fs)
    {
      var missing;
      fields, media, missing := MapEntry(km, j, d, dir, fs, fields, media);
      if missing {
        IncompleteAt(km, j, d);
        ok := false;
        break;
      }
      CompleteStep(km, j, d);
      j := j + 1;
    }
  }

  /** One entry of the key map: a missing value, or the field and media it adds. */
  method MapEntry(km: KeyMap, j: nat, d: map<string, YamlValue>, dir: Path, fs: FileSystem,
                  fields: map<string, string>, media: set<string>)
    returns (fields': map<string, string>, media': set<string>, missing: bool)
    requires j < |km|
    requires fields == MappedFields(km, j, d, dir, fs) && media == MappedMedia(km, j, d, dir, fs)
    ensures missing <==> km[j].0 != "tags" && Get(d, km[j].0, Null) == Null
    ensures !missing ==> fields' == MappedFields(km, j + 1, d, dir, fs) && media' == MappedMedia(km, j + 1, d, dir, fs)
  {
    var key := km[j].0;
    fields', media', missing := fields, media, false;
    if key == "tags" {
      MappedSkip(km, j, d, dir, fs);
    } else {
      var raw := Get(d, key, Null);
      if raw == Null {
        missing := true;
      } else {
        var processed, found := ProcessValue(raw, dir, fs);
        MappedAdd(km, j, d, dir, fs, fields, media, processed, found);
        fields' := fields[km[j].1 := processed];
        media' := media + found;
      }
    }
  }

  /** Image processing of one mapped value: its text and the set of media it refers to. */
  method ProcessValue(raw: YamlValue, dir: Path, fs: FileSystem) returns (text: string, media: set<string>)
    ensures text == FieldText(raw, dir, fs) && media == FieldMedia(raw, dir, fs)
  {
    var found;
    text, found := ProcessFieldForImages(Show(raw), dir, fs);
    media := FoundSet(found, raw, dir, fs);
  }

  /** A `tags` entry of the key map adds no field and no media. */
  lemma MappedSkip(km: KeyMap, j: nat, d: map<string, YamlValue>, dir: Path, fs: FileSystem)
    requires j < |km| && km[j].0 == "tags"
    ensures MappedFields(km, j + 1, d, dir, fs) == MappedFields(km, j, d, dir, fs)
    ensures MappedMedia(km, j + 1, d, dir, fs) == MappedMedia(km, j, d, dir, fs)
  {
  }

  /** Any other entry sets its field to the processed value and adds that value's media. */
  lemma MappedAdd(km: KeyMap, j: nat, d: map<string, YamlValue>, dir: Path, fs: FileSystem,
                  fields: map<string, string>, media: set<string>, text: string, found: set<string>)
    requires j < |km| && km[j].0 != "tags"
    requires fields == MappedFields(km, j, d, dir, fs) && media == MappedMedia(km, j, d, dir, fs)
    requires var v := Get(d, km[j].0, Null); text == FieldText(v, dir, fs) && found == FieldMedia(v, dir, fs)
    ensures fields[km[j].1 := text] == MappedFields(km, j + 1, d, dir, fs)
    ensures media + found == MappedMedia(km, j + 1, d, dir, fs)
  {
  }

  lemma CompleteStep(km: KeyMap, j: nat, d: map<string, YamlValue>)
    requires j < |km| && CompleteUpTo(km, j, d)
    requires km[j].0 == "tags" || Get(d, km[j].0, Null) != Null
    ensures CompleteUpTo(km, j + 1, d)
  {
  }

  /** A non-`tags` key with no value makes the whole key map incomplete. */
  lemma IncompleteAt(km: KeyMap, j: nat, d: map<string, YamlValue>)
    requires j < |km| && km[j].0 != "tags" && Get(d, km[j].0, Null) == Null
    ensures !Complete(km, d)
  {
  }

  /** The media of one field, as a set. */
  function FoundSet(found: seq<string>, v: YamlValue, dir: Path, fs: FileSystem): (r: set<string>)
    requires forall x :: x in found <==> x in FieldMedia(v, dir, fs)
    ensures r == FieldMedia(v, dir, fs)
  {
    set x | x in found
  }

  // ---------------------------------------------------------------------------
  // Properties
  // ---------------------------------------------------------------------------

  lemma CollectStep(rs: seq<Contribution>, b: nat)
    requires b < |rs|
    ensures var prev := Collect(rs[..b]);
      Collect(rs[..b + 1]) ==
        match rs[b]
        case None => prev
        case Some((card, media)) => Extraction(prev.cards + [card], prev.media + media)
  {
    assert rs[..b + 1][..b] == rs[..b];
  }

  /** Collecting works outcome by outcome: two runs collect to the concatenation of their cards. */
  lemma {:induction false} CollectConcat(a: seq<Contribution>, b: seq<Contribution>)
    ensures Collect(a + b) == Extraction(Collect(a).cards + Collect(b).cards, Collect(a).media + Collect(b).media)
    decreases |b|
  {
    if b == [] {
      assert a + b == a;
    } else {
      var b' := b[..|b| - 1];
      CollectConcat(a, b');
      assert (a + b)[..|a + b| - 1] == a + b';
      assert (a + b)[|a + b| - 1] == b[|b| - 1];
    }
  }

  /** Extraction works block by block: the cards of two runs of blocks are concatenated, in order. */
  lemma ExtractConcat(ctx: Context, a: seq<string>, b: seq<string>)
    requires ValidContext(ctx)
    ensures ExtractBodies(ctx, a + b) == Extraction(
      ExtractBodies(ctx, a).cards + ExtractBodies(ctx, b).cards,
      ExtractBodies(ctx, a).media + ExtractBodies(ctx, b).media)
  {
    OutcomesConcat(ctx, a, b);
    CollectConcat(Outcomes(ctx, a), Outcomes(ctx, b));
  }

  lemma OutcomesSnoc(ctx: Context, a: seq<string>, x: string)
    requires ValidContext(ctx)
    ensures Outcomes(ctx, a + [x]) == Outcomes(ctx, a) + [BlockCard(ctx, x)]
  {
    assert (a + [x])[..|a|] == a;
  }

  lemma {:induction false} OutcomesConcat(ctx: Context, a: seq<string>, b: seq<string>)
    requires ValidContext(ctx)
    ensures Outcomes(ctx, a + b) == Outcomes(ctx, a) + Outcomes(ctx, b)
    decreases |b|
  {
    if b == [] {
      assert a + b == a;
    } else {
      var b', x := b[..|b| - 1], b[|b| - 1];
      OutcomesConcat(ctx, a, b');
      assert a + b == (a + b') + [x];
      assert b == b' + [x];
      OutcomesSnoc(ctx, a + b', x);
      OutcomesSnoc(ctx, b', x);
    }
  }

  /** A block that is unparsable, not a mapping or incomplete leaves the other blocks' cards as they are. */
  lemma RejectedBlockDropped(ctx: Context, a: seq<string>, x: string, b: seq<string>)
    requires ValidContext(ctx) && BlockCard(ctx, x).None?
    ensures ExtractBodies(ctx, a + [x] + b) == ExtractBodies(ctx, a + b)
  {
    ExtractConcat(ctx, a + [x], b);
    ExtractConcat(ctx, a, [x]);
    ExtractConcat(ctx, a, b);
    assert [x][..0] == [];
    var none: seq<Contribution> := [None];
    assert Outcomes(ctx, [x]) == none;
    assert none[..0] == [];
  }

  /** When every outcome is a card, there is one card per outcome, in order. */
  lemma {:induction false} CollectAll(rs: seq<Contribution>)
    requires forall k :: 0 <= k < |rs| ==> rs[k].Some?
    ensures |Collect(rs).cards| == |rs|
    ensures forall k :: 0 <= k < |rs| ==> Collect(rs).cards[k] == rs[k].value.0
    decreases |rs|
  {
    if rs != [] {
      var n := |rs| - 1;
      CollectAll(rs[..n]);
      assert Collect(rs).cards == Collect(rs[..n]).cards + [rs[n].value.0];
    }
  }

  /** When every block is accepted there is exactly one card per block, in block order. */
  lemma OneCardPerBlock(ctx: Context, bodies: seq<string>)
    requires ValidContext(ctx)
    requires forall k :: 0 <= k < |bodies| ==> BlockCard(ctx, bodies[k]).Some?
    ensures |ExtractBodies(ctx, bodies).cards| == |bodies|
    ensures forall k :: 0 <= k < |bodies| ==> ExtractBodies(ctx, bodies).cards[k] == BlockCard(ctx, bodies[k]).value.0
  {
    var rs := Outcomes(ctx, bodies);
    forall k | 0 <= k < |bodies| ensures rs[k] == BlockCard(ctx, bodies[k]) {
      OutcomeAt(ctx, bodies, k);
    }
    CollectAll(rs);
  }

  /**
   * The card a complete mapping becomes: the deck is the block's `deck` value or the
   * default deck, the tags are the block's `tags` value or an empty list, the
   * source-file field holds the relative path, every other field present is one
   * a key other than `tags` maps to, holding the processed value of the last such key,
   * and the GUID basis joins the card's own question and answer fields, its deck and
   * the relative path with `|`.
   */
  lemma CardContents(ctx: Context, d: map<string, YamlValue>)
    requires ValidContext(ctx) && Complete(ctx.model.keyMap, d)
    ensures var c := CardOf(ctx, d).0;
      var km := ctx.model.keyMap;
      var sf := SourceFileField(ctx.model.fields);
      && c.deck == (if "deck" in d then d["deck"] else Yaml.Str(DeckName(ctx.root, ctx.file)))
      && c.tags == (if "tags" in d then d["tags"] else Yaml.EmptyList)
      && (sf.Some? ==> sf.value in c.fields && c.fields[sf.value] == RelativePathText(ctx.root, ctx.file))
      && c.guidBasis == FieldOrNone(c.fields, MappedTo(km, "q")) + "|" + FieldOrNone(c.fields, MappedTo(km, "a"))
                        + "|" + Show(c.deck) + "|" + RelativePathText(ctx.root, ctx.file)
      && forall f :: f in c.fields && (sf.None? || f != sf.value) ==>
           && LastWriter(km, |km|, f).Some?
           && km[LastWriter(km, |km|, f).value].0 in d
           && c.fields[f] == FieldText(d[km[LastWriter(km, |km|, f).value].0], Parent(ctx.file), ctx.fs)
  {
    var km := ctx.model.keyMap;
    forall f | f in CardOf(ctx, d).0.fields && (SourceFileField(ctx.model.fields).None? || f != SourceFileField(ctx.model.fields).value)
      ensures LastWriter(km, |km|, f).Some? && km[LastWriter(km, |km|, f).value].0 in d
      ensures CardOf(ctx, d).0.fields[f] == FieldText(d[km[LastWriter(km, |km|, f).value].0], Parent(ctx.file), ctx.fs)
    {
      MappedFieldsSpec(km, |km|, d, Parent(ctx.file), ctx.fs, f);
    }
  }

  /** Every field a key other than `tags` maps to is present in the card. */
  lemma MappedFieldsPresent(ctx: Context, d: map<string, YamlValue>, j: nat)
    requires ValidContext(ctx) && Complete(ctx.model.keyMap, d)
    requires j < |ctx.model.keyMap| && ctx.model.keyMap[j].0 != "tags"
    ensures ctx.model.keyMap[j].1 in CardOf(ctx, d).0.fields
  {
    var km := ctx.model.keyMap;
    MappedFieldsSpec(km, |km|, d, Parent(ctx.file), ctx.fs, km[j].1);
    LastWriterSpec(km, |km|, km[j].1);
  }

  /** The `tags` entry of the key map never writes a field: a field only `tags` maps to stays absent. */
  lemma TagsNeverInFields(ctx: Context, d: map<string, YamlValue>, f: string)
    requires ValidContext(ctx) && Complete(ctx.model.keyMap, d)
    requires forall j :: 0 <= j < |ctx.model.keyMap| && ctx.model.keyMap[j].1 == f ==> ctx.model.keyMap[j].0 == "tags"
    requires SourceFileField(ctx.model.fields) != Some(f)
    ensures f !in CardOf(ctx, d).0.fields
  {
    var km := ctx.model.keyMap;
    MappedFieldsSpec(km, |km|, d, Parent(ctx.file), ctx.fs, f);
  }

  /** With `q` unmapped and no field named by the empty string, the basis starts with the text `None`. */
  lemma GuidUnmappedQuestion(ctx: Context, d: map<string, YamlValue>)
    requires ValidContext(ctx) && Complete(ctx.model.keyMap, d)
    requires Lookup(ctx.model.keyMap, "q").None? && "" !in CardOf(ctx, d).0.fields
    ensures CardOf(ctx, d).0.guidBasis[..5] == "None|"
  {
    var c := CardOf(ctx, d).0;
    var km := ctx.model.keyMap;
    assert MappedTo(km, "q") == "";
    assert c.guidBasis == GuidBasis(c.fields, km, c.deck, RelativePathText(ctx.root, ctx.file));
    GuidBasisHead(c.fields, km, c.deck, RelativePathText(ctx.root, ctx.file));
  }

  /** The basis starts with the question field's text and a `|`. */
  lemma GuidBasisHead(fields: map<string, string>, km: KeyMap, deck: YamlValue, relative: string)
    ensures var q := FieldOrNone(fields, MappedTo(km, "q"));
      |q| < |GuidBasis(fields, km, deck, relative)| && GuidBasis(fields, km, deck, relative)[..|q| + 1] == q + "|"
  {
    var q := FieldOrNone(fields, MappedTo(km, "q"));
    var rest := FieldOrNone(fields, MappedTo(km, "a")) + "|" + Show(deck) + "|" + relative;
    assert GuidBasis(fields, km, deck, relative) == (q + "|") + rest;
  }

  /** Every media path of a field names an existing file. */
  lemma FieldMediaAreFiles(v: YamlValue, dir: Path, fs: FileSystem, x: string)
    requires x in FieldMedia(v, dir, fs)
    ensures exists p :: fs.isFile(p) && PathText(p) == x
  {
    var found := Substitute(Show(v), dir, fs).found;
    var p :| p in found && PathText(p) == x;
    var k :| 0 <= k < |found| && found[k] == p;
  }

  lemma {:induction false} MappedMediaAreFiles(km: KeyMap, n: nat, d: map<string, YamlValue>, dir: Path, fs: FileSystem, x: string)
    requires n <= |km| && x in MappedMedia(km, n, d, dir, fs)
    ensures exists p :: fs.isFile(p) && PathText(p) == x
  {
    if x in MappedMedia(km, n - 1, d, dir, fs) {
      MappedMediaAreFiles(km, n - 1, d, dir, fs, x);
    } else {
      FieldMediaAreFiles(Get(d, km[n - 1].0, Null), dir, fs, x);
    }
  }

  /** Every collected media path comes from an outcome that is a card. */
  lemma {:induction false} CollectedMedia(rs: seq<Contribution>, x: string)
    requires x in Collect(rs).media
    ensures exists k :: 0 <= k < |rs| && rs[k].Some? && x in rs[k].value.1
    decreases |rs|
  {
    var n := |rs| - 1;
    if x in Collect(rs[..n]).media {
      CollectedMedia(rs[..n], x);
      var k :| 0 <= k < n && rs[..n][k].Some? && x in rs[..n][k].value.1;
      assert rs[..n][k] == rs[k];
    }
  }

  /** Every media path a file yields is an existing image file that an accepted card refers to. */
  lemma MediaAreFiles(ctx: Context, bodies: seq<string>, x: string)
    requires ValidContext(ctx) && x in ExtractBodies(ctx, bodies).media
    ensures exists p :: ctx.fs.isFile(p) && PathText(p) == x
  {
    var rs := Outcomes(ctx, bodies);
    CollectedMedia(rs, x);
    var k :| 0 <= k < |rs| && rs[k].Some? && x in rs[k].value.1;
    OutcomeAt(ctx, bodies, k);
    var d := ctx.parse(bodies[k]).entries;
    var km := ctx.model.keyMap;
    MappedMediaAreFiles(km, |km|, d, Parent(ctx.file), ctx.fs, x);
  }

  /** A field's media are among the media of every longer prefix of the key map that writes it. */
  lemma {:induction false} FieldMediaInMapped(km: KeyMap, n: nat, d: map<string, YamlValue>, dir: Path, fs: FileSystem, j: nat)
    requires j < n <= |km| && km[j].0 != "tags"
    ensures FieldMedia(Get(d, km[j].0, Null), dir, fs) <= MappedMedia(km, n, d, dir, fs)
  {
    if j < n - 1 {
      FieldMediaInMapped(km, n - 1, d, dir, fs, j);
    }
  }

  /** The media of an accepted outcome are among the collected media. */
  lemma {:induction false} CollectIncludes(rs: seq<Contribution>, b: nat)
    requires b < |rs| && rs[b].Some?
    ensures rs[b].value.1 <= Collect(rs).media
    decreases |rs|
  {
    var n := |rs| - 1;
    if b < n {
      CollectIncludes(rs[..n], b);
      assert rs[..n][b] == rs[b];
    }
  }

  /**
   * Every image file referred to by a mapped value of an accepted block, wherever
   * it stands in the value, is among the media the file yields.
   */
  lemma AcceptedImageCollected(ctx: Context, bodies: seq<string>, b: nat, j: nat, k: nat)
    requires ValidContext(ctx) && b < |bodies| && BlockCard(ctx, bodies[b]).Some?
    requires j < |ctx.model.keyMap| && ctx.model.keyMap[j].0 != "tags"
    requires var v := Show(Get(ctx.parse(bodies[b]).entries, ctx.model.keyMap[j].0, Null));
      k < |Matches(v)| && ctx.fs.isFile(Resolved(v, Matches(v)[k], Parent(ctx.file), ctx.fs))
    ensures var v := Show(Get(ctx.parse(bodies[b]).entries, ctx.model.keyMap[j].0, Null));
      PathText(Resolved(v, Matches(v)[k], Parent(ctx.file), ctx.fs)) in ExtractBodies(ctx, bodies).media
  {
    var km := ctx.model.keyMap;
    var d := ctx.parse(bodies[b]).entries;
    var dir := Parent(ctx.file);
    var v := Show(Get(d, km[j].0, Null));
    MatchedFileCollected(v, dir, ctx.fs, k);
    FieldMediaInMapped(km, |km|, d, dir, ctx.fs, j);
    OutcomeAt(ctx, bodies, b);
    CollectIncludes(Outcomes(ctx, bodies), b);
  }

  /**
   * A note file that is exactly one fenced block yields the card of that block's
   * body, if the body is accepted, and nothing otherwise.
   */
  lemma SingleBlockFile(ctx: Context, body: string)
    requires ValidContext(ctx)
    requires !Contains(body, Close) && (body == [] || !IsSpace(body[0]))
    ensures FileExtraction(ctx, Some("```anki\n" + body + Close)) ==
      match BlockCard(ctx, body)
      case None => Extraction([], {})
      case Some((card, media)) => Extraction([card], media)
  {
    var s := "```anki\n" + body + Close;
    SingleBlock(body);
    assert [] + [body] == [body];
    OutcomesSnoc(ctx, [], body);
    var r := BlockCard(ctx, body);
    CollectOne(r);
    assert FileExtraction(ctx, Some(s)) == Collect([r]);
  }

  lemma CollectOne(r: Contribution)
    ensures Collect([r]) ==
      match r
      case None => Extraction([], {})
      case Some((card, media)) => Extraction([card], media)
  {
    assert [r][..0] == [];
  }

  /** A file that cannot be read yields no cards and no media. */
  lemma UnreadableFile(ctx: Context)
    requires ValidContext(ctx)
    ensures FileExtraction(ctx, None) == Extraction([], {})
  {
  }
}
