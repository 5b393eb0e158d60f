/**
 * The grouping half of `generate_anki_package`: cards are put in one deck per
 * distinct deck value, each card becomes a note whose fields follow the note
 * type's field order, and the media list is sorted and freed of duplicates.
 * Writing the archive is genanki's business and is not modelled.
 */
module Packaging {
  import opened Wrappers
  import opened Strings
  import opened Yaml
  import opened ModelFromYaml
  import opened CardExtraction
  import opened Sorting

  /** A `genanki.Note`: the ordered field texts, the GUID and the tags. */
  datatype Note = Note(fields: seq<string>, guid: string, tags: YamlValue)

  /** A `genanki.Deck` with the notes added to it. */
  datatype Deck = Deck(id: int, name: YamlValue, notes: seq<Note>)

  /**
   * What the function cannot see: Python's salted `hash()`, `genanki.guid_for`, and
   * whether `genanki.Note(...)` and `add_note` accept a note without raising.
   */
  datatype Oracles = Oracles(hash: YamlValue -> int, guidFor: string -> string, accepts: Note -> bool)

  /** The `decks` dictionary: its keys in insertion order and its entries. */
  datatype Grouping = Grouping(order: seq<YamlValue>, table: map<YamlValue, Deck>)

  /**
   * What a call amounts to: nothing written (no cards), a package with the decks in
   * creation order and the media files, or the `TypeError` an unhashable deck value
   * (a YAML list or mapping) raises at the dictionary lookup.
   */
  datatype Outcome =
    | NoPackage
    | Package(decks: seq<Deck>, media: seq<string>)
    | UnhashableDeck(name: YamlValue)

  const IdFloor: int := 2000000000
  const IdCeiling: int := 2600000000

  function Abs(x: int): nat
  {
    if x < 0 then -x else x
  }

  /** `deck_id_base`, from the hash of the note type's name. */
  function DeckIdBase(modelName: string, o: Oracles): (r: int)
    ensures IdFloor <= r < IdFloor + 500000000
  {
    IdFloor + Abs(o.hash(Yaml.Str(modelName))) % 500000000
  }

  /** The id a new deck gets, from the base and the hash of its name. */
  function DeckId(base: int, name: YamlValue, o: Oracles): (r: int)
    ensures base <= r < base + 100000000
  {
    base + Abs(o.hash(name)) % 100000000
  }

  /** `[str(fields.get(name, "")) for name in model_field_names]`. */
  function OrderedFields(names: seq<string>, fields: map<string, string>): (r: seq<string>)
    ensures |r| == |names|
    ensures forall k :: 0 <= k < |names| && names[k] in fields ==> r[k] == fields[names[k]]
    ensures forall k :: 0 <= k < |names| && names[k] !in fields ==> r[k] == ""
  {
    if names == [] then []
    else [if names[0] in fields then fields[names[0]] else ""] + OrderedFields(names[1..], fields)
  }

  /** The note a card becomes. */
  function NoteOf(model: Schema, c: Card, o: Oracles): (r: Note)
    ensures |r.fields| == |model.fields|
    ensures forall k :: 0 <= k < |model.fields| ==> r.fields[k] == (if model.fields[k] in c.fields then c.fields[model.fields[k]] else "")
  {
    Note(OrderedFields(model.fields, c.fields), o.guidFor(c.guidBasis), c.tags)
  }

  predicate DistinctValues(xs: seq<YamlValue>)
  {
    forall a, b :: 0 <= a < b < |xs| ==> xs[a] != xs[b]
  }

  /** What the dictionary keeps true: each key once, each entry named by its key, ids in range. */
  ghost predicate Coherent(g: Grouping)
  {
    && DistinctValues(g.order)
    && (forall v :: v in g.table <==> v in g.order)
    && (forall v :: v in g.table ==> g.table[v].name == v && IdFloor <= g.table[v].id < IdCeiling)
  }

  /** One iteration of the loop, for a hashable deck value. */
  function AddCard(g: Grouping, c: Card, model: Schema, o: Oracles): (r: Grouping)
    requires Coherent(g)
    ensures Coherent(r)
  {
    var name := c.deck;
    var g' :=
      if name in g.table then g
      else Grouping(g.order + [name], g.table[name := Deck(DeckId(DeckIdBase(model.name, o), name, o), name, [])]);
    var n := NoteOf(model, c, o);
    if o.accepts(n) then
      var d := g'.table[name];
      g'.(table := g'.table[name := d.(notes := d.notes + [n])])
    else g'
  }

  function Init(cards: seq<Card>): seq<Card>
    requires cards != []
  {
    cards[..|cards| - 1]
  }

  /** The dictionary after the loop, or the first unhashable deck value met. */
  function GroupAll(cards: seq<Card>, model: Schema, o: Oracles): (r: Result<Grouping, YamlValue>)
    ensures r.Success? ==> Coherent(r.value)
    ensures r.Failure? ==> r.error.Unhashable?
    decreases |cards|
  {
    if cards == [] then Success(Grouping([], map[]))
    else
      match GroupAll(Init(cards), model, o)
      case Failure(v) => Failure(v)
      case Success(g) =>
        var c := cards[|cards| - 1];
        if c.deck.Unhashable? then Failure(c.deck) else Success(AddCard(g, c, model, o))
  }

  /** `decks.values()`, in insertion order. */
  function Values(g: Grouping): (r: seq<Deck>)
    requires Coherent(g)
    ensures |r| == |g.order|
    ensures forall k :: 0 <= k < |r| ==> r[k] == g.table[g.order[k]] && r[k].name == g.order[k]
  {
    seq(|g.order|, k requires 0 <= k < |g.order| => g.table[g.order[k]])
  }

  /** What `generate_anki_package` hands to `genanki.Package`, if it gets that far. */
  function GeneratePackage(cards: seq<Card>, mediaFiles: seq<string>, model: Schema, o: Oracles): (r: Outcome)
    ensures r.UnhashableDeck? ==> r.name.Unhashable?
    ensures r.Package? ==> StrictlySorted(r.media) && forall x :: x in r.media <==> x in mediaFiles
  {
    match GroupAll(cards, model, o)
    case Failure(v) => UnhashableDeck(v)
    case Success(g) =>
      if g.order == [] then NoPackage else Package(Values(g), SortedUnique(mediaFiles))
  }

  method GenerateAnkiPackage(cards: seq<Card>, mediaFiles: seq<string>, model: Schema, o: Oracles)
    returns (out: Outcome)
    ensures out == GeneratePackage(cards, mediaFiles, model, o)
  {
    var order: seq<YamlValue> := [];
    var decks: map<YamlValue, Deck> := map[];
    var base := DeckIdBase(model.name, o);
    var i := 0;
    while i < |cards|
      invariant 0 <= i <= |cards|
      invariant GroupAll(cards[..i], model, o) == Success(Grouping(order, decks))
    {
      var c := cards[i];
      assert cards[..i + 1][..i] == cards[..i];
      if c.deck.Unhashable? {
        FailureSticks(cards, i + 1, model, o);
        return UnhashableDeck(c.deck);
      }
      if c.deck !in decks {
        decks := decks[c.deck := Deck(DeckId(base, c.deck, o), c.deck, [])];
        order := order + [c.deck];
      }
      var note := NoteOf(model, c, o);
      if o.accepts(note) {
        decks := decks[c.deck := decks[c.deck].(notes := decks[c.deck].notes + [note])];
      }
      i := i + 1;
    }
    assert cards[..i] == cards;
    if order == [] {
      return NoPackage;
    }
    var media := SortedUnique(mediaFiles);
    return Package(Values(Grouping(order, decks)), media);
  }

  /** Once an unhashable deck value has been met, later cards change nothing. */
  lemma {:induction false} FailureSticks(cards: seq<Card>, n: nat, model: Schema, o: Oracles)
    requires n <= |cards| && GroupAll(cards[..n], model, o).Failure?
    ensures GroupAll(cards, model, o) == GroupAll(cards[..n], model, o)
    decreases |cards|
  {
    if n == |cards| {
      assert cards[..n] == cards;
    } else {
      assert Init(cards)[..n] == cards[..n];
      FailureSticks(Init(cards), n, model, o);
    }
  }

  /** Some card carries deck value `v`. */
  predicate HasDeck(cards: seq<Card>, v: YamlValue)
  {
    exists k :: 0 <= k < |cards| && cards[k].deck == v
  }

  /** The position of the first card with deck value `v`, or `|cards|` when there is none. */
  function FirstIndex(cards: seq<Card>, v: YamlValue): (r: nat)
    ensures r <= |cards|
    ensures r < |cards| ==> cards[r].deck == v
    ensures forall j :: 0 <= j < r ==> cards[j].deck != v
  {
    if cards == [] then 0
    else if cards[0].deck == v then 0
    else 1 + FirstIndex(cards[1..], v)
  }

  lemma FirstIndexInit(cards: seq<Card>, v: YamlValue)
    requires cards != [] && FirstIndex(Init(cards), v) < |cards| - 1
    ensures FirstIndex(cards, v) == FirstIndex(Init(cards), v)
  {
    var r1, r2 := FirstIndex(cards, v), FirstIndex(Init(cards), v);
    assert Init(cards)[r2] == cards[r2];
  }

  lemma FirstIndexLast(cards: seq<Card>, v: YamlValue)
    requires cards != [] && cards[|cards| - 1].deck == v && !HasDeck(Init(cards), v)
    ensures FirstIndex(cards, v) == |cards| - 1
  {
  }

  lemma FirstIndexFound(cards: seq<Card>, v: YamlValue)
    requires HasDeck(cards, v)
    ensures FirstIndex(cards, v) < |cards|
  {
    var k :| 0 <= k < |cards| && cards[k].deck == v;
  }

  lemma HasDeckInit(cards: seq<Card>, v: YamlValue)
    requires cards != []
    ensures HasDeck(cards, v) <==> HasDeck(Init(cards), v) || cards[|cards| - 1].deck == v
  {
    if HasDeck(cards, v) && cards[|cards| - 1].deck != v {
      var k :| 0 <= k < |cards| && cards[k].deck == v;
      assert Init(cards)[k] == cards[k];
    }
    if HasDeck(Init(cards), v) {
      var k :| 0 <= k < |Init(cards)| && Init(cards)[k].deck == v;
      assert Init(cards)[k] == cards[k];
    }
  }

  /** How one more card changes the dictionary's keys. */
  lemma OrderStep(cards: seq<Card>, model: Schema, o: Oracles)
    requires cards != [] && GroupAll(cards, model, o).Success?
    ensures GroupAll(Init(cards), model, o).Success?
    ensures var g := GroupAll(Init(cards), model, o).value;
      var c := cards[|cards| - 1];
      GroupAll(cards, model, o).value.order == if c.deck in g.order then g.order else g.order + [c.deck]
  {
  }

  /** The decks are the distinct deck values of the cards. */
  lemma {:induction false} DecksOfCards(cards: seq<Card>, model: Schema, o: Oracles)
    requires GroupAll(cards, model, o).Success?
    ensures forall v :: v in GroupAll(cards, model, o).value.order <==> HasDeck(cards, v)
    decreases |cards|
  {
    if cards != [] {
      OrderStep(cards, model, o);
      DecksOfCards(Init(cards), model, o);
      forall v ensures HasDeck(cards, v) <==> HasDeck(Init(cards), v) || v == cards[|cards| - 1].deck {
        HasDeckInit(cards, v);
      }
    }
  }

  /**
   * One deck per distinct deck value, in the order the values first appear: a deck
   * is created for a card's value even when that card's note is then refused.
   */
  lemma {:induction false} DecksFirstSeen(cards: seq<Card>, model: Schema, o: Oracles)
    requires GroupAll(cards, model, o).Success?
    ensures var g := GroupAll(cards, model, o).value;
      && (forall v :: v in g.order <==> HasDeck(cards, v))
      && (forall a, b :: 0 <= a < b < |g.order| ==> FirstIndex(cards, g.order[a]) < FirstIndex(cards, g.order[b]) < |cards|)
    decreases |cards|
  {
    DecksOfCards(cards, model, o);
    if cards != [] {
      var init := Init(cards);
      var c := cards[|cards| - 1];
      OrderStep(cards, model, o);
      DecksFirstSeen(init, model, o);
      var g := GroupAll(init, model, o).value;
      forall a | 0 <= a < |g.order| ensures FirstIndex(cards, g.order[a]) == FirstIndex(init, g.order[a]) < |init| {
        FirstIndexFound(init, g.order[a]);
        FirstIndexInit(cards, g.order[a]);
      }
      if c.deck !in g.order {
        FirstIndexLast(cards, c.deck);
      }
    }
  }

  /** The notes of the cards with deck value `v` that genanki accepts, in card order. */
  function AcceptedNotes(cards: seq<Card>, v: YamlValue, model: Schema, o: Oracles): seq<Note>
    decreases |cards|
  {
    if cards == [] then []
    else
      var c := cards[|cards| - 1];
      var n := NoteOf(model, c, o);
      AcceptedNotes(Init(cards), v, model, o) + (if c.deck == v && o.accepts(n) then [n] else [])
  }

  lemma {:induction false} NoCardsNoNotes(cards: seq<Card>, v: YamlValue, model: Schema, o: Oracles)
    requires !HasDeck(cards, v)
    ensures AcceptedNotes(cards, v, model, o) == []
    decreases |cards|
  {
    if cards != [] {
      assert !HasDeck(Init(cards), v) by {
        forall k | 0 <= k < |Init(cards)| ensures Init(cards)[k].deck != v {
          assert Init(cards)[k] == cards[k];
        }
      }
      NoCardsNoNotes(Init(cards), v, model, o);
    }
  }

  /** Each deck holds exactly the accepted notes of its cards, in card order. */
  lemma {:induction false} NotesGrouped(cards: seq<Card>, model: Schema, o: Oracles)
    requires GroupAll(cards, model, o).Success?
    ensures var g := GroupAll(cards, model, o).value;
      forall v :: v in g.table ==> g.table[v].notes == AcceptedNotes(cards, v, model, o)
    decreases |cards|
  {
    if cards != [] {
      var init := Init(cards);
      var c := cards[|cards| - 1];
      NotesGrouped(init, model, o);
      DecksOfCards(init, model, o);
      var g := GroupAll(init, model, o).value;
      var r := AddCard(g, c, model, o);
      assert GroupAll(cards, model, o).value == r;
      forall v | v in r.table ensures r.table[v].notes == AcceptedNotes(cards, v, model, o) {
        AddCardNotes(g, c, model, o, v);
        if v !in g.table {
          NoCardsNoNotes(init, v, model, o);
        }
      }
    }
  }

  /** One more card appends its note, when accepted, to its own deck and to no other. */
  lemma AddCardNotes(g: Grouping, c: Card, model: Schema, o: Oracles, v: YamlValue)
    requires Coherent(g) && v in AddCard(g, c, model, o).table
    ensures var n := NoteOf(model, c, o);
      AddCard(g, c, model, o).table[v].notes ==
        (if v in g.table then g.table[v].notes else []) + (if c.deck == v && o.accepts(n) then [n] else [])
  {
  }

  /** A package carries one deck per distinct deck value of the cards, in first-seen order. */
  lemma PackagedDecks(cards: seq<Card>, mediaFiles: seq<string>, model: Schema, o: Oracles)
    requires GeneratePackage(cards, mediaFiles, model, o).Package?
    ensures var ds := GeneratePackage(cards, mediaFiles, model, o).decks;
      && (forall a, b :: 0 <= a < b < |ds| ==> ds[a].name != ds[b].name)
      && (forall v :: HasDeck(cards, v) <==> exists k :: 0 <= k < |ds| && ds[k].name == v)
      && (forall a, b :: 0 <= a < b < |ds| ==> FirstIndex(cards, ds[a].name) < FirstIndex(cards, ds[b].name))
  {
    var g := GroupAll(cards, model, o).value;
    DecksFirstSeen(cards, model, o);
    var ds := Values(g);
    forall v | HasDeck(cards, v) ensures exists k :: 0 <= k < |ds| && ds[k].name == v {
      var k :| 0 <= k < |g.order| && g.order[k] == v;
    }
  }

  /** Every deck id lies in [2000000000, 2600000000), whatever the hashes are. */
  lemma DeckIdsInRange(cards: seq<Card>, mediaFiles: seq<string>, model: Schema, o: Oracles)
    requires GeneratePackage(cards, mediaFiles, model, o).Package?
    ensures forall d :: d in GeneratePackage(cards, mediaFiles, model, o).decks ==> IdFloor <= d.id < IdCeiling
  {
  }

  /** Each packaged deck holds the accepted notes of the cards naming it, in card order. */
  lemma PackagedNotes(cards: seq<Card>, mediaFiles: seq<string>, model: Schema, o: Oracles)
    requires GeneratePackage(cards, mediaFiles, model, o).Package?
    ensures forall d :: d in GeneratePackage(cards, mediaFiles, model, o).decks ==>
      d.notes == AcceptedNotes(cards, d.name, model, o)
  {
    NotesGrouped(cards, model, o);
  }

  /** Every note has one field per note-type field, in that order, `""` where the card has none. */
  lemma NoteFieldsFollowModel(model: Schema, c: Card, o: Oracles)
    ensures var n := NoteOf(model, c, o);
      && |n.fields| == |model.fields|
      && (forall k :: 0 <= k < |model.fields| ==>
            n.fields[k] == if model.fields[k] in c.fields then c.fields[model.fields[k]] else "")
      && n.tags == c.tags && n.guid == o.guidFor(c.guidBasis)
  {
  }

  /** The media list is the one strictly sorted list of the distinct media paths. */
  lemma PackagedMedia(cards: seq<Card>, mediaFiles: seq<string>, model: Schema, o: Oracles, ys: seq<string>)
    requires GeneratePackage(cards, mediaFiles, model, o).Package?
    ensures var m := GeneratePackage(cards, mediaFiles, model, o).media;
      && StrictlySorted(m) && Distinct(m)
      && (forall x :: x in m <==> x in mediaFiles)
      && (StrictlySorted(ys) && (forall x :: x in ys <==> x in mediaFiles) ==> ys == m)
  {
    var m := SortedUnique(mediaFiles);
    SortedIsDistinct(m);
    if StrictlySorted(ys) && (forall x :: x in ys <==> x in mediaFiles) {
      SortedUniqueness(ys, m);
    }
  }

  /** Nothing is written exactly when there are no cards (and no deck value crashed). */
  lemma NothingWrittenWithoutCards(cards: seq<Card>, mediaFiles: seq<string>, model: Schema, o: Oracles)
    ensures GeneratePackage(cards, mediaFiles, model, o).NoPackage? <==> cards == []
  {
    if GroupAll(cards, model, o).Success? && cards != [] {
      DecksFirstSeen(cards, model, o);
      assert HasDeck(cards, cards[0].deck);
    }
  }

  /** Some card's deck value is unhashable. */
  predicate AnyUnhashable(cards: seq<Card>)
  {
    exists k :: 0 <= k < |cards| && cards[k].deck.Unhashable?
  }

  /** Card `k` is the first whose deck value is unhashable. */
  predicate FirstUnhashableAt(cards: seq<Card>, k: int)
  {
    0 <= k < |cards| && cards[k].deck.Unhashable? && forall j :: 0 <= j < k ==> !cards[j].deck.Unhashable?
  }

  lemma AnyUnhashableInit(cards: seq<Card>)
    requires cards != []
    ensures AnyUnhashable(cards) <==> AnyUnhashable(Init(cards)) || cards[|cards| - 1].deck.Unhashable?
  {
    if AnyUnhashable(cards) && !cards[|cards| - 1].deck.Unhashable? {
      var k :| 0 <= k < |cards| && cards[k].deck.Unhashable?;
      assert Init(cards)[k] == cards[k];
    }
    if AnyUnhashable(Init(cards)) {
      var k :| 0 <= k < |Init(cards)| && Init(cards)[k].deck.Unhashable?;
      assert Init(cards)[k] == cards[k];
    }
  }

  lemma FirstUnhashableAtInit(cards: seq<Card>, k: int)
    requires cards != [] && FirstUnhashableAt(Init(cards), k)
    ensures FirstUnhashableAt(cards, k) && cards[k] == Init(cards)[k]
  {
    assert forall j :: 0 <= j <= k ==> Init(cards)[j] == cards[j];
  }

  lemma FirstUnhashableAtLast(cards: seq<Card>)
    requires cards != [] && !AnyUnhashable(Init(cards)) && cards[|cards| - 1].deck.Unhashable?
    ensures FirstUnhashableAt(cards, |cards| - 1)
  {
    forall j | 0 <= j < |cards| - 1 ensures !cards[j].deck.Unhashable? {
      assert Init(cards)[j] == cards[j];
    }
  }

  /** The loop stops exactly when some card's deck value is unhashable, at the first one. */
  lemma {:induction false} GroupAllFailure(cards: seq<Card>, model: Schema, o: Oracles)
    ensures GroupAll(cards, model, o).Failure? <==> AnyUnhashable(cards)
    ensures GroupAll(cards, model, o).Failure? ==>
      exists k :: FirstUnhashableAt(cards, k) && cards[k].deck == GroupAll(cards, model, o).error
    decreases |cards|
  {
    if cards != [] {
      var init := Init(cards);
      var c := cards[|cards| - 1];
      GroupAllFailure(init, model, o);
      AnyUnhashableInit(cards);
      match GroupAll(init, model, o)
      case Failure(v) =>
        var k :| FirstUnhashableAt(init, k) && init[k].deck == v;
        FirstUnhashableAtInit(cards, k);
      case Success(_) =>
        if c.deck.Unhashable? {
          FirstUnhashableAtLast(cards);
        }
    }
  }

  /** The call crashes exactly when some card's deck value is unhashable, naming the first. */
  lemma UnhashableDeckCrashes(cards: seq<Card>, mediaFiles: seq<string>, model: Schema, o: Oracles)
    ensures GeneratePackage(cards, mediaFiles, model, o).UnhashableDeck? <==> AnyUnhashable(cards)
    ensures GeneratePackage(cards, mediaFiles, model, o).UnhashableDeck? ==>
      exists k :: FirstUnhashableAt(cards, k) && cards[k].deck == GeneratePackage(cards, mediaFiles, model, o).name
  {
    GroupAllFailure(cards, model, o);
  }
}
