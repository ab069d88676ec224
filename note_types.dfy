/** Note classification by marker glyphs in a document's display name. */
module NoteTypes {

  /** `NoteType`; the source's `None` variant is called `Unclassified` here. */
  datatype NoteType = Evergreen | Potted | Seedling | Unclassified

  const EvergreenGlyph: char := '\U{1F332}'  // evergreen tree
  const PottedGlyph: char := '\U{1FAB4}'     // potted plant
  const SeedlingGlyph: char := '\U{1F331}'   // seedling

  /** `NoteType::from(&str)`: the glyphs are tested in a fixed order, the first present wins. */
  function Classify(name: string): (r: NoteType)
    ensures r != Unclassified <==> EvergreenGlyph in name || PottedGlyph in name || SeedlingGlyph in name
    ensures r != Unclassified ==> AsEmoji(r) in name
  {
    if EvergreenGlyph in name then Evergreen
    else if PottedGlyph in name then Potted
    else if SeedlingGlyph in name then Seedling
    else Unclassified
  }

  /** `NoteType::from(usize)`: lower values have higher priority. */
  function FromIndex(n: nat): (r: NoteType)
    ensures r == Unclassified <==> n >= 3
    ensures n < 3 ==> r == PriorityTable[n].1
  {
    match n
    case 0 => Evergreen
    case 1 => Potted
    case 2 => Seedling
    case _ => Unclassified
  }

  /** `NoteType::to_weight`. */
  function ToWeight(t: NoteType): (r: char)
    ensures '1' <= r <= '4'
    ensures r == '4' <==> t == Unclassified
  {
    match t
    case Evergreen => '1'
    case Potted => '2'
    case Seedling => '3'
    case Unclassified => '4'
  }

  /** `NoteType::as_emoji`. */
  function AsEmoji(t: NoteType): (r: char)
    ensures r == ' ' <==> t == Unclassified
    ensures t != Unclassified ==> (r, t) in PriorityTable
  {
    match t
    case Evergreen => EvergreenGlyph
    case Potted => PottedGlyph
    case Seedling => SeedlingGlyph
    case Unclassified => ' '
  }

  // ---------------------------------------------------------------------------
  // An independent reference: the priority table, searched in order.

  const PriorityTable: seq<(char, NoteType)> :=
    [(EvergreenGlyph, Evergreen), (PottedGlyph, Potted), (SeedlingGlyph, Seedling)]

  function FirstMarked(table: seq<(char, NoteType)>, name: string): NoteType
    decreases |table|
  {
    if |table| == 0 then Unclassified
    else if table[0].0 in name then table[0].1
    else FirstMarked(table[1..], name)
  }

  /** Classification is the first entry of the priority table whose glyph occurs in the name. */
  lemma ClassifyIsFirstMarked(name: string)
    ensures Classify(name) == FirstMarked(PriorityTable, name)
  {
    var t1 := PriorityTable[1..];
    var t2 := t1[1..];
    assert t1 == [(PottedGlyph, Potted), (SeedlingGlyph, Seedling)];
    assert t2 == [(SeedlingGlyph, Seedling)];
    assert |t2[1..]| == 0;
    assert FirstMarked(t2, name) == if SeedlingGlyph in name then Seedling else Unclassified;
    assert FirstMarked(t1, name) == if PottedGlyph in name then Potted else FirstMarked(t2, name);
  }

  /** The evergreen glyph decides regardless of the others; each tier needs its glyph and none above. */
  lemma ClassifyPriority(name: string)
    ensures Classify(name) == Evergreen <==> EvergreenGlyph in name
    ensures Classify(name) == Potted <==> EvergreenGlyph !in name && PottedGlyph in name
    ensures Classify(name) == Seedling <==>
      EvergreenGlyph !in name && PottedGlyph !in name && SeedlingGlyph in name
    ensures Classify(name) == Unclassified <==>
      EvergreenGlyph !in name && PottedGlyph !in name && SeedlingGlyph !in name
  {
  }

  /** The glyph written into the metadata block of a classified note occurs in its name. */
  lemma EmojiOccursInName(name: string)
    ensures Classify(name) != Unclassified ==> AsEmoji(Classify(name)) in name
    ensures Classify(name) == Unclassified ==> AsEmoji(Classify(name)) == ' '
  {
  }

  /** The weight digit, read back as an index from '1', is the index `From<usize>` maps to the same type. */
  lemma WeightInvertsFromIndex(t: NoteType)
    ensures '1' <= ToWeight(t) <= '4'
    ensures FromIndex((ToWeight(t) as int - '1' as int) as nat) == t
  {
  }

  /** Weights follow the priority order of the indexes: index n gets weight '1' + min(n, 3). */
  lemma FromIndexWeight(n: nat)
    ensures ToWeight(FromIndex(n)) as int == '1' as int + (if n < 3 then n else 3)
  {
  }
}
