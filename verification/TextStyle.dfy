/** Text styles packed into one 64-bit word: a 26-bit foreground channel, an overflow bit, a 26-bit
    background channel, an overflow bit, and the emphases.  One addition of two words detects every
    combination that must not be OR-ed. */
module TextStyle {
  import opened Wrappers

  /** A colour as `fg` and `bg` are given it. */
  datatype Color =
    | Rgb(value: bv32)       // three bytes
    | Terminal(code: bv8)

  predicate ValidColor(c: Color) {
    c.Rgb? ==> c.value <= 0xFF_FFFF
  }

  /** `color_type`: the value below a two-bit discriminator, 01 for RGB and 11 for a terminal colour. */
  function Pack(c: Color): bv64 {
    match c
    case Rgb(v) => (v | 0x100_0000) as bv64
    case Terminal(t) => ((t as bv32) | 0x300_0000) as bv64
  }

  datatype Style =
    | Plain
    | Foreground(c: Color)
    | Background(c: Color)
    | Emphasized(em: bv8)
    | Combined(l: Style, r: Style)

  predicate ValidColors(s: Style) {
    match s
    case Foreground(c) => ValidColor(c)
    case Background(c) => ValidColor(c)
    case Combined(l, r) => ValidColors(l) && ValidColors(r)
    case _ => true
  }

  /** `operator|=`: `None` where it reports an error. */
  function Or(a: bv64, b: bv64): Option<bv64> {
    if (a + b) & 0x20_0000_0400_0000 != 0 then None else Some(a | b)
  }

  /** The word of a style, or `None` where some `operator|=` reports an error. */
  function Eval(s: Style): Option<bv64> {
    match s
    case Plain => Some(0)
    case Foreground(c) => Some(Pack(c))
    case Background(c) => Some(Pack(c) << 27)
    case Emphasized(em) => Some((em as bv64) << 54)
    case Combined(l, r) =>
      var a, b := Eval(l), Eval(r);
      if a.None? || b.None? then None else Or(a.value, b.value)
  }

  /** The reference: the two colours and the emphases of a style, kept apart. */
  datatype Meaning = Meaning(fg: bv64, bg: bv64, em: bv64)

  /** A colour channel is all zero when unset, and otherwise has discriminator 01 or 11. */
  predicate ValidChannel(x: bv64) {
    x < 0x400_0000 && (x & 0x100_0000 == 0 ==> x == 0)
  }

  /** One is a terminal colour and the other any colour. */
  predicate Clash(x: bv64, y: bv64) {
    x & y & 0x100_0000 != 0 && (x | y) & 0x200_0000 != 0
  }

  function Union(a: Meaning, b: Meaning): Meaning {
    Meaning(a.fg | b.fg, a.bg | b.bg, a.em | b.em)
  }

  /** Styles combine channel by channel, unless a channel clashes. */
  function Merge(a: Meaning, b: Meaning): Option<Meaning> {
    if Clash(a.fg, b.fg) || Clash(a.bg, b.bg) then None else Some(Union(a, b))
  }

  function Denote(s: Style): Option<Meaning> {
    match s
    case Plain => Some(Meaning(0, 0, 0))
    case Foreground(c) => Some(Meaning(Pack(c), 0, 0))
    case Background(c) => Some(Meaning(0, Pack(c), 0))
    case Emphasized(em) => Some(Meaning(0, 0, em as bv64))
    case Combined(l, r) =>
      var a, b := Denote(l), Denote(r);
      if a.None? || b.None? then None else Merge(a.value, b.value)
  }

  predicate ValidMeaning(m: Meaning) {
    ValidChannel(m.fg) && ValidChannel(m.bg) && m.em < 0x100
  }

  function Word(m: Meaning): bv64 {
    m.fg | (m.bg << 27) | (m.em << 54)
  }

  // ---------- Proofs ----------

  /** The overflow test of one `operator|=` fires exactly when a channel clashes: the addition adds
      both channels at once, and none carries further than its overflow bit. */
  lemma OverflowIffClash(a: Meaning, b: Meaning)
    requires ValidMeaning(a) && ValidMeaning(b)
    ensures (Word(a) + Word(b)) & 0x20_0000_0400_0000 != 0 <==> Clash(a.fg, b.fg) || Clash(a.bg, b.bg)
  {
  }

  lemma UnionOfWords(a: Meaning, b: Meaning)
    requires ValidMeaning(a) && ValidMeaning(b)
    ensures Word(a) | Word(b) == Word(Union(a, b))
  {
  }

  lemma UnionIsValid(a: Meaning, b: Meaning)
    requires ValidMeaning(a) && ValidMeaning(b)
    ensures ValidMeaning(Union(a, b))
  {
  }

  /** So one `operator|=` on words is the combination of what they mean. */
  lemma OrRefinesMerge(a: Meaning, b: Meaning)
    requires ValidMeaning(a) && ValidMeaning(b)
    ensures Or(Word(a), Word(b)) == if Merge(a, b).None? then None else Some(Word(Merge(a, b).value))
    ensures Merge(a, b).Some? ==> ValidMeaning(Merge(a, b).value)
  {
    hide Word, Clash, ValidMeaning, Union;
    OverflowIffClash(a, b);
    UnionOfWords(a, b);
    UnionIsValid(a, b);
  }

  /** Packed styles refine the reference: a style built from colours, emphases and OR reports an
      error exactly when the reference rejects it, and otherwise its word packs the meaning. */
  lemma {:induction false} PackedStyleIsExact(s: Style)
    requires ValidColors(s)
    ensures Eval(s) == if Denote(s).None? then None else Some(Word(Denote(s).value))
    ensures Denote(s).Some? ==> ValidMeaning(Denote(s).value)
  {
    if s.Combined? {
      PackedStyleIsExact(s.l);
      PackedStyleIsExact(s.r);
      CombinedIsExact(s);
    } else {
      LeafIsExact(s);
    }
  }

  // ---------- The error in terms of the style ----------

  datatype Channel = Fg | Bg

  predicate HasColor(s: Style, ch: Channel) {
    match s
    case Foreground(_) => ch.Fg?
    case Background(_) => ch.Bg?
    case Combined(l, r) => HasColor(l, ch) || HasColor(r, ch)
    case _ => false
  }

  predicate HasTerminal(s: Style, ch: Channel) {
    match s
    case Foreground(c) => ch.Fg? && c.Terminal?
    case Background(c) => ch.Bg? && c.Terminal?
    case Combined(l, r) => HasTerminal(l, ch) || HasTerminal(r, ch)
    case _ => false
  }

  /** In one channel, one side has a terminal colour and the other any colour. */
  predicate Incompatible(l: Style, r: Style, ch: Channel) {
    (HasTerminal(l, ch) && HasColor(r, ch)) || (HasColor(l, ch) && HasTerminal(r, ch))
  }

  /** Some OR in the style joins incompatible sides. */
  predicate Rejected(s: Style) {
    s.Combined? && (Rejected(s.l) || Rejected(s.r) || Incompatible(s.l, s.r, Fg) || Incompatible(s.l, s.r, Bg))
  }

  predicate IsSet(x: bv64) {
    x & 0x100_0000 != 0
  }

  predicate IsTerminal(x: bv64) {
    x & 0x200_0000 != 0
  }

  lemma ClashOfBits(x: bv64, y: bv64)
    requires ValidChannel(x) && ValidChannel(y)
    ensures Clash(x, y) <==> (IsTerminal(x) && IsSet(y)) || (IsSet(x) && IsTerminal(y))
  {
  }

  lemma UnionOfForegrounds(a: Meaning, b: Meaning)
    ensures IsSet(Union(a, b).fg) <==> IsSet(a.fg) || IsSet(b.fg)
    ensures IsTerminal(Union(a, b).fg) <==> IsTerminal(a.fg) || IsTerminal(b.fg)
  {
  }

  lemma UnionOfBackgrounds(a: Meaning, b: Meaning)
    ensures IsSet(Union(a, b).bg) <==> IsSet(a.bg) || IsSet(b.bg)
    ensures IsTerminal(Union(a, b).bg) <==> IsTerminal(a.bg) || IsTerminal(b.bg)
  {
  }

  lemma UnsetChannel()
    ensures !IsSet(0) && !IsTerminal(0)
  {
  }

  lemma PackedBits(c: Color)
    requires ValidColor(c)
    ensures IsSet(Pack(c)) && (IsTerminal(Pack(c)) <==> c.Terminal?)
  {
    hide Pack;
    PackIsValid(c);
  }

  predicate Tells(x: bv64, color: bool, terminal: bool) {
    (IsSet(x) <==> color) && (IsTerminal(x) <==> terminal)
  }

  /** The discriminators of a style say which colours it contains. */
  predicate TellsColors(s: Style, m: Meaning) {
    Tells(m.fg, HasColor(s, Fg), HasTerminal(s, Fg)) && Tells(m.bg, HasColor(s, Bg), HasTerminal(s, Bg))
  }

  /** A style reports an error if and only if, in some OR, one side has a terminal colour and the other
      any colour of the same channel. */
  lemma {:induction false} ErrorIffIncompatible(s: Style)
    requires ValidColors(s)
    ensures Eval(s).None? <==> Rejected(s)
    ensures Denote(s).Some? ==> TellsColors(s, Denote(s).value)
  {
    hide Eval, TellsColors, IsSet, IsTerminal, Pack, Merge, Word, ValidMeaning;
    PackedStyleIsExact(s);
    if s.Combined? {
      ErrorIffIncompatible(s.l);
      ErrorIffIncompatible(s.r);
      PackedStyleIsExact(s.l);
      PackedStyleIsExact(s.r);
      if Denote(s.l).Some? && Denote(s.r).Some? {
        MergeTells(s.l, s.r, Denote(s.l).value, Denote(s.r).value);
      }
    } else {
      LeafTells(s);
    }
  }

  lemma LeafTells(s: Style)
    requires !s.Combined? && ValidColors(s)
    ensures Denote(s).Some? && TellsColors(s, Denote(s).value)
  {
    hide IsSet, IsTerminal, Pack;
    UnsetChannel();
    match s {
      case Foreground(c) => PackedBits(c);
      case Background(c) => PackedBits(c);
      case _ =>
    }
  }

  lemma MergeTells(l: Style, r: Style, a: Meaning, b: Meaning)
    requires TellsColors(l, a) && TellsColors(r, b) && ValidMeaning(a) && ValidMeaning(b)
    ensures Merge(a, b).None? <==> Incompatible(l, r, Fg) || Incompatible(l, r, Bg)
    ensures Merge(a, b).Some? ==> TellsColors(Combined(l, r), Merge(a, b).value)
  {
    hide IsSet, IsTerminal, Clash, Union, ValidChannel, HasColor, HasTerminal;
    MergeClashes(l, r, a, b);
    UnionTells(l, r, a, b);
  }

  lemma MergeClashes(l: Style, r: Style, a: Meaning, b: Meaning)
    requires TellsColors(l, a) && TellsColors(r, b) && ValidMeaning(a) && ValidMeaning(b)
    ensures Clash(a.fg, b.fg) <==> Incompatible(l, r, Fg)
    ensures Clash(a.bg, b.bg) <==> Incompatible(l, r, Bg)
  {
    hide IsSet, IsTerminal, Clash, ValidChannel, HasColor, HasTerminal;
    ClashOfBits(a.fg, b.fg);
    ClashOfBits(a.bg, b.bg);
  }

  lemma UnionTells(l: Style, r: Style, a: Meaning, b: Meaning)
    requires TellsColors(l, a) && TellsColors(r, b)
    ensures TellsColors(Combined(l, r), Union(a, b))
  {
    hide IsSet, IsTerminal, Union;
    UnionOfForegrounds(a, b);
    UnionOfBackgrounds(a, b);
  }

  // ---------- Proofs of the parts ----------

  lemma CombinedIsExact(s: Style)
    requires s.Combined?
    requires forall t <- [s.l, s.r] ::
      && Eval(t) == (if Denote(t).None? then None else Some(Word(Denote(t).value)))
      && (Denote(t).Some? ==> ValidMeaning(Denote(t).value))
    ensures Eval(s) == if Denote(s).None? then None else Some(Word(Denote(s).value))
    ensures Denote(s).Some? ==> ValidMeaning(Denote(s).value)
  {
    hide Word, ValidMeaning, Or, Merge, Pack;
    assert s.l in [s.l, s.r] && s.r in [s.l, s.r];
    if Denote(s.l).Some? && Denote(s.r).Some? {
      OrRefinesMerge(Denote(s.l).value, Denote(s.r).value);
    }
  }

  lemma LeafIsExact(s: Style)
    requires !s.Combined? && ValidColors(s)
    ensures Denote(s).Some? && ValidMeaning(Denote(s).value) && Eval(s) == Some(Word(Denote(s).value))
  {
    hide Eval, Denote, Word, ValidMeaning, ValidColor;
    match s {
      case Foreground(c) => ForegroundIsExact(c);
      case Background(c) => BackgroundIsExact(c);
      case Emphasized(em) => EmphasisIsExact(em);
      case Plain => PlainIsExact();
    }
  }

  lemma ForegroundIsExact(c: Color)
    requires ValidColor(c)
    ensures var s := Foreground(c);
      Denote(s).Some? && ValidMeaning(Denote(s).value) && Eval(s) == Some(Word(Denote(s).value))
  {
    hide Word, ValidMeaning, Or, Merge, Pack;
    ColorWord(c);
  }

  lemma BackgroundIsExact(c: Color)
    requires ValidColor(c)
    ensures var s := Background(c);
      Denote(s).Some? && ValidMeaning(Denote(s).value) && Eval(s) == Some(Word(Denote(s).value))
  {
    hide Word, ValidMeaning, Or, Merge, Pack;
    ColorWord(c);
  }

  lemma EmphasisIsExact(em: bv8)
    ensures var s := Emphasized(em);
      Denote(s).Some? && ValidMeaning(Denote(s).value) && Eval(s) == Some(Word(Denote(s).value))
  {
    hide Word, ValidMeaning, Or, Merge, Pack;
    EmphasisWord(em);
  }

  lemma PlainIsExact()
    ensures Denote(Plain).Some? && ValidMeaning(Denote(Plain).value) && Eval(Plain) == Some(Word(Denote(Plain).value))
  {
    hide ValidMeaning, Or, Merge, Pack;
    EmphasisWord(0);
  }

  lemma PackIsValid(c: Color)
    requires ValidColor(c)
    ensures ValidChannel(Pack(c)) && (Pack(c) & 0x200_0000 != 0 <==> c.Terminal?) && Pack(c) & 0x100_0000 != 0
    ensures Pack(c) & 0xFF_FFFF == if c.Rgb? then c.value as bv64 else c.code as bv64
  {
  }

  lemma ColorWord(c: Color)
    requires ValidColor(c)
    ensures Word(Meaning(Pack(c), 0, 0)) == Pack(c) && Word(Meaning(0, Pack(c), 0)) == Pack(c) << 27
    ensures ValidMeaning(Meaning(Pack(c), 0, 0)) && ValidMeaning(Meaning(0, Pack(c), 0))
  {
    hide Pack;
    PackIsValid(c);
  }

  lemma EmphasisWord(em: bv8)
    ensures Word(Meaning(0, 0, em as bv64)) == (em as bv64) << 54 && Word(Meaning(0, 0, 0)) == 0
    ensures ValidMeaning(Meaning(0, 0, em as bv64)) && ValidMeaning(Meaning(0, 0, 0))
  {
  }

  // ---------- The getters ----------

  /** Every style keeps its overflow bits zero, an unset channel is all zero, and the getters read
      both colours and the emphases back. */
  lemma GettersReadBack(m: Meaning)
    requires ValidMeaning(m)
    ensures Word(m) & 0x20_0000_0400_0000 == 0
    ensures Word(m) & 0x100_0000 != 0 <==> m.fg != 0
    ensures Word(m) & 0x8_0000_0000_0000 != 0 <==> m.bg != 0
    ensures Word(m) & 0x3FF_FFFF == m.fg
    ensures (Word(m) >> 27) & 0x3FF_FFFF == m.bg
    ensures Word(m) >> 54 == m.em
  {
  }

  function GetForeground(w: bv64): bv64 {
    w & 0x3FF_FFFF
  }

  function GetBackground(w: bv64): bv64 {
    (w >> 27) & 0x3FF_FFFF
  }

  function GetEmphasis(w: bv64): bv64 {
    w >> 54
  }

  /** Everything the getters say of a word. */
  function Read(w: bv64): Meaning {
    Meaning(GetForeground(w), GetBackground(w), GetEmphasis(w))
  }

  lemma WordReadsAs(m: Meaning)
    requires ValidMeaning(m)
    ensures Read(Word(m)) == m
  {
  }

  lemma StyleReadsAs(s: Style)
    requires ValidColors(s) && Eval(s).Some?
    ensures Denote(s).Some? && Read(Eval(s).value) == Denote(s).value
  {
    hide Read, Word, ValidMeaning, Eval, Denote;
    PackedStyleIsExact(s);
    WordReadsAs(Denote(s).value);
  }

  /** What the getters say of a style built by one builder: only its own field is set. */
  lemma LeafReadsBack(s: Style)
    requires ValidColors(s) && !s.Combined?
    ensures Eval(s).Some?
    ensures Read(Eval(s).value) == Meaning(
                                     if s.Foreground? then Pack(s.c) else 0,
                                     if s.Background? then Pack(s.c) else 0,
                                     if s.Emphasized? then s.em as bv64 else 0)
  {
    hide Read, Pack, Eval;
    LeafEvaluates(s);
    StyleReadsAs(s);
  }

  lemma LeafEvaluates(s: Style)
    requires ValidColors(s) && !s.Combined?
    ensures Eval(s).Some?
  {
    hide Pack;
  }

  /** And of an OR that is not rejected: every field has the bits of both sides. */
  lemma CombinedReadsBack(l: Style, r: Style)
    requires ValidColors(Combined(l, r)) && Eval(Combined(l, r)).Some?
    ensures Eval(l).Some? && Eval(r).Some?
    ensures Read(Eval(Combined(l, r)).value) == Union(Read(Eval(l).value), Read(Eval(r).value))
  {
    SidesEvaluate(l, r);
    hide Read, Eval, Clash, Union;
    StyleReadsAs(l);
    StyleReadsAs(r);
    StyleReadsAs(Combined(l, r));
    CombinedMeaning(l, r);
  }

  lemma SidesEvaluate(l: Style, r: Style)
    requires Eval(Combined(l, r)).Some?
    ensures Eval(l).Some? && Eval(r).Some?
  {
    hide Or, Pack;
  }

  lemma CombinedMeaning(l: Style, r: Style)
    requires Denote(Combined(l, r)).Some?
    ensures Denote(l).Some? && Denote(r).Some?
    ensures Denote(Combined(l, r)).value == Union(Denote(l).value, Denote(r).value)
  {
    hide Union, Clash, Pack;
  }

  /** A style object: `operator|=` changes its word, or reports an error and leaves it alone. */
  class StyleWord {
    var style: bv64

    constructor (style0: bv64)
      ensures style == style0
    {
      style := style0;
    }

    /** Stated on meanings: the error is exactly a clash, and otherwise both colours and the emphases
        are those of either side. */
    method OrAssign(rhs: bv64, ghost l: Meaning, ghost r: Meaning) returns (ok: bool)
      requires ValidMeaning(l) && ValidMeaning(r) && style == Word(l) && rhs == Word(r)
      modifies this
      ensures ok <==> Merge(l, r).Some?
      ensures style == if ok then Word(Merge(l, r).value) else old(style)
    {
      hide Word, Merge, ValidMeaning, Or;
      OrRefinesMerge(l, r);
      var joined := Or(style, rhs);
      ok := joined.Some?;
      if ok {
        style := joined.value;
      }
    }
  }
}
