/** What the printers of src/fort.c put into the output, call by call, and its size in bytes and in columns. */
module Units {

  /** One call of a printer: a glyph printed `n` times, a style tag, which takes no column, or a line of a cell's text. */
  datatype Unit = Glyphs(n: nat, glyph: string) | Tag(tag: string) | Written(text: string)
  {
    function Content(): string {
      match this
      case Glyphs(n, glyph) => Repeat(glyph, n)
      case Tag(tag) => tag
      case Written(text) => text
    }

    function Column(): seq<string> {
      match this
      case Glyphs(n, glyph) => seq(n, _ => glyph)
      case Tag(_) => []
      case Written(text) => Letters(text)
    }
  }

  function Glyph(glyph: string): Unit {
    Glyphs(1, glyph)
  }

  const LINE_END := Glyphs(1, "\n")

  /** A string printed `n` times. */
  function Repeat(s: string, n: nat): string {
    if n == 0 then "" else Repeat(s, n - 1) + s
  }

  /** Every byte of a text takes a column of its own. */
  function Letters(text: string): seq<string> {
    seq(|text|, i requires 0 <= i < |text| => [text[i]])
  }

  /** The bytes of a piece of output. */
  ghost function Bytes(us: seq<Unit>): string {
    if us == [] then "" else us[0].Content() + Bytes(us[1..])
  }

  /** The columns of a piece of output: its glyphs, without the tags. */
  ghost function Visible(us: seq<Unit>): seq<string> {
    if us == [] then [] else us[0].Column() + Visible(us[1..])
  }

  lemma Assoc<T>(a: seq<T>, b: seq<T>, c: seq<T>)
    ensures a + b + c == a + (b + c)
  {
  }

  lemma {:induction false} BytesConcat(a: seq<Unit>, b: seq<Unit>)
    ensures Bytes(a + b) == Bytes(a) + Bytes(b)
  {
    hide Unit.Content;
    if a == [] {
      assert a + b == b;
    } else {
      BytesConcat(a[1..], b);
      assert (a + b)[1..] == a[1..] + b && (a + b)[0] == a[0];
      Assoc(a[0].Content(), Bytes(a[1..]), Bytes(b));
    }
  }

  lemma {:induction false} VisibleConcat(a: seq<Unit>, b: seq<Unit>)
    ensures Visible(a + b) == Visible(a) + Visible(b)
  {
    hide Unit.Column;
    if a == [] {
      assert a + b == b;
    } else {
      VisibleConcat(a[1..], b);
      assert (a + b)[1..] == a[1..] + b && (a + b)[0] == a[0];
      Assoc(a[0].Column(), Visible(a[1..]), Visible(b));
    }
  }

  lemma Concat(a: seq<Unit>, b: seq<Unit>)
    ensures Bytes(a + b) == Bytes(a) + Bytes(b)
    ensures Visible(a + b) == Visible(a) + Visible(b)
  {
    BytesConcat(a, b);
    VisibleConcat(a, b);
  }

  lemma Single(u: Unit)
    ensures Bytes([u]) == u.Content()
    ensures Visible([u]) == u.Column()
  {
    assert [u][1..] == [];
  }

  lemma GlyphMeasure(glyph: string)
    ensures Bytes([Glyph(glyph)]) == glyph && Visible([Glyph(glyph)]) == [glyph]
  {
    Single(Glyph(glyph));
    assert Repeat(glyph, 1) == Repeat(glyph, 0) + glyph;
  }

  lemma TagMeasure(tag: string)
    ensures Bytes([Tag(tag)]) == tag && Visible([Tag(tag)]) == []
  {
    Single(Tag(tag));
  }

  /** A glyph printed `n` times by one call. */
  function Copies(n: nat, glyph: string): seq<Unit> {
    [Glyphs(n, glyph)]
  }

  function Spaces(n: nat): seq<Unit> {
    Copies(n, " ")
  }

  lemma {:induction false} RepeatSize(s: string, n: nat)
    ensures |Repeat(s, n)| == n * |s|
  {
    if n > 0 {
      RepeatSize(s, n - 1);
      assert n * |s| == (n - 1) * |s| + |s|;
    }
  }

  lemma CopiesMeasure(n: nat, glyph: string)
    ensures Bytes(Copies(n, glyph)) == Repeat(glyph, n)
    ensures |Bytes(Copies(n, glyph))| == n * |glyph|
    ensures Visible(Copies(n, glyph)) == seq(n, _ => glyph)
  {
    Single(Glyphs(n, glyph));
    RepeatSize(glyph, n);
  }

  /** A text printed by one call. */
  function Text(s: string): seq<Unit> {
    [Written(s)]
  }

  lemma TextMeasure(s: string)
    ensures Bytes(Text(s)) == s
    ensures |Visible(Text(s))| == |s| && forall x :: 0 <= x < |s| ==> Visible(Text(s))[x] == [s[x]]
  {
    Single(Written(s));
  }

  lemma NothingMeasure()
    ensures Bytes([]) == "" && Visible([]) == []
  {
  }

  /** Several lines one after the other. */
  ghost function Flat(lines: seq<seq<Unit>>): seq<Unit> {
    if lines == [] then [] else Flat(lines[..|lines| - 1]) + lines[|lines| - 1]
  }

  lemma FlatLast(lines: seq<seq<Unit>>, line: seq<Unit>)
    ensures Flat(lines + [line]) == Flat(lines) + line
  {
    assert (lines + [line])[..|lines|] == lines;
  }

  lemma {:induction false} FlatConcat(a: seq<seq<Unit>>, b: seq<seq<Unit>>)
    ensures Flat(a + b) == Flat(a) + Flat(b)
    decreases |b|
  {
    if b == [] {
      assert a + b == a;
    } else {
      var b' := b[..|b| - 1];
      FlatConcat(a, b');
      assert (a + b)[..|a + b| - 1] == a + b';
      assert Flat(a + b) == (Flat(a) + Flat(b')) + b[|b| - 1];
    }
  }
}
