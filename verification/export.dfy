/** The report grid: normalising a rubric's verse reference, reading the
    fields one rubric contributes, and laying a grouping out as rows of a
    key followed by one cell per witness. */
module Export {
  import opened Basics
  import opened Strings
  import opened Tei
  import opened Grouping

  predicate IsUpper(c: char) { 'A' <= c <= 'Z' }
  predicate IsLower(c: char) { 'a' <= c <= 'z' }
  predicate IsLetter(c: char) { IsUpper(c) || IsLower(c) }

  // ---------------------------------------------------------------------------
  // Roman book numbers: `^(I+)([A-Z][a-z]+.*)`

  /** The regex matches with a first group of `k` letters `I`: those `I`s,
      then a capital letter, then a lower-case letter. */
  predicate RomanMatchAt(s: string, k: nat) {
    && 1 <= k && k + 1 < |s|
    && (forall m :: 0 <= m < k ==> s[m] == 'I')
    && IsUpper(s[k]) && IsLower(s[k + 1])
  }

  /** The number of leading `I`s. */
  function IRun(s: string): (n: nat)
    ensures n <= |s| && forall m :: 0 <= m < n ==> s[m] == 'I'
    ensures n < |s| ==> s[n] != 'I'
  {
    if s != [] && s[0] == 'I' then 1 + IRun(s[1..]) else 0
  }

  /** A run of `I`s is never longer than the leading one. */
  lemma {:induction false} IRunCovers(s: string, k: nat)
    requires k <= |s| && forall m :: 0 <= m < k ==> s[m] == 'I'
    ensures k <= IRun(s)
  {
    if k > 0 {
      IRunCovers(s[1..], k - 1);
    }
  }

  /** The length of the first group when the regex matches: the greedy `I+`
      gives back its last `I` only when that `I` must serve as the capital. */
  function RomanPrefix(s: string): (r: Option<nat>)
    ensures r.None? <==> forall k: nat :: !RomanMatchAt(s, k)
    ensures r.Some? ==> RomanMatchAt(s, r.value) && forall k: nat :: RomanMatchAt(s, k) ==> k <= r.value
  {
    var n := IRun(s);
    assert forall k: nat :: RomanMatchAt(s, k) ==> n - 1 <= k <= n by {
      forall k: nat | RomanMatchAt(s, k) ensures n - 1 <= k <= n {
        IRunCovers(s, k);
      }
    }
    if n >= 1 && n + 1 < |s| && IsUpper(s[n]) && IsLower(s[n + 1]) then
      assert RomanMatchAt(s, n);
      Some(n)
    else if n >= 2 && n < |s| && IsLower(s[n]) then
      assert RomanMatchAt(s, n - 1);
      Some(n - 1)
    else
      assert !RomanMatchAt(s, n) && (n >= 1 ==> !RomanMatchAt(s, n - 1));
      None
  }

  /** `convert_roman_prefix`: a leading run of `I`s before a capitalised word
      becomes its length in decimal. The rest is what the group `.*` takes,
      so it ends at the first newline. */
  function ConvertRomanPrefix(s: string): (r: string)
    ensures RomanPrefix(s).None? ==> r == s
    ensures RomanPrefix(s).Some? ==>
              var k := RomanPrefix(s).value;
              && r == Decimal(k) + s[k..k + LineEnd(s[k..])]
              && k + 2 <= k + LineEnd(s[k..])
  {
    match RomanPrefix(s)
    case None => s
    case Some(k) =>
      assert s[k..][0] == s[k] && s[k..][1] == s[k + 1];
      Decimal(k) + s[k..k + LineEnd(s[k..])]
  }

  /** A converted reference starts with a digit, so converting again changes
      nothing. */
  lemma ConvertRomanPrefixIdempotent(s: string)
    ensures ConvertRomanPrefix(ConvertRomanPrefix(s)) == ConvertRomanPrefix(s)
  {
    var r := ConvertRomanPrefix(s);
    if RomanPrefix(s).Some? {
      assert IsDigit(r[0]);
      assert IRun(r) == 0;
    }
  }

  /** A matched reference without a newline keeps everything after the
      run of `I`s. */
  lemma ConvertMatched(s: string, k: nat)
    requires RomanPrefix(s) == Some(k)
    requires forall i :: 0 <= i < |s| ==> s[i] != '\n'
    ensures ConvertRomanPrefix(s) == Decimal(k) + s[k..]
  {
    NoNewline(s[k..]);
  }

  lemma ConvertThirdJohn()
    ensures ConvertRomanPrefix("IIIJohn4:5") == "3John4:5"
  {
    var s := "IIIJohn4:5";
    assert IRun(s[3..]) == 0;
    assert IRun(s) == 3;
    ConvertMatched(s, 3);
    DecimalDigit(3);
    ThirdJohnText();
  }

  lemma ThirdJohnText()
    ensures ['3'] + "IIIJohn4:5"[3..] == "3John4:5"
  {
  }

  /** The greedy run gives back one `I` when the book name itself starts
      with `I`. */
  lemma ConvertFirstIsaiah()
    ensures ConvertRomanPrefix("IIsaiah") == "1Isaiah"
  {
    var s := "IIsaiah";
    assert IRun(s[2..]) == 0;
    assert IRun(s) == 2;
    ConvertMatched(s, 1);
    DecimalDigit(1);
    FirstIsaiahText();
  }

  lemma FirstIsaiahText()
    ensures ['1'] + "IIsaiah"[1..] == "1Isaiah"
  {
  }

  lemma DecimalDigit(d: nat)
    requires d < 10
    ensures Decimal(d) == [('0' as int + d) as char]
  {
  }

  lemma NoNewline(s: string)
    requires forall i :: 0 <= i < |s| ==> s[i] != '\n'
    ensures LineEnd(s) == |s|
  {
  }

  // ---------------------------------------------------------------------------
  // Book/locator spacing: `^([1-3]?[A-Za-z]+)(\d+:\d+b?)$` to `\1 \2`

  predicate AllLetters(s: string) {
    forall k :: 0 <= k < |s| ==> IsLetter(s[k])
  }

  predicate AllDigits(s: string) {
    forall k :: 0 <= k < |s| ==> IsDigit(s[k])
  }

  /** `[1-3]?[A-Za-z]+`. */
  predicate IsBook(b: string) {
    || (|b| >= 1 && AllLetters(b))
    || (|b| >= 2 && '1' <= b[0] <= '3' && AllLetters(b[1..]))
  }

  /** `\d+:\d+`. */
  predicate IsChapterVerse(l: string) {
    exists c :: 0 < c < |l| - 1 && AllDigits(l[..c]) && l[c] == ':' && AllDigits(l[c + 1..])
  }

  /** `\d+:\d+b?`. */
  predicate IsLocator(l: string) {
    IsChapterVerse(l) || (|l| > 0 && l[|l| - 1] == 'b' && IsChapterVerse(l[..|l| - 1]))
  }

  /** What `$` leaves after the match: nothing, or one final newline. */
  predicate IsLineEnd(e: string) {
    e == "" || e == "\n"
  }

  /** The whole of `s` matches: book `s[..i]`, locator `s[i..j]`, end `s[j..]`. */
  predicate Splits(s: string, i: nat, j: nat) {
    i <= j <= |s| && IsBook(s[..i]) && IsLocator(s[i..j]) && IsLineEnd(s[j..])
  }

  /** The number of leading letters. */
  function LetterRun(s: string): (n: nat)
    ensures n <= |s| && AllLetters(s[..n])
    ensures n < |s| ==> !IsLetter(s[n])
  {
    if s != [] && IsLetter(s[0]) then
      var k := LetterRun(s[1..]);
      assert s[1..][..k] == s[1..k + 1];
      1 + k
    else 0
  }

  /** The characters a locator is made of. */
  predicate LocatorChar(c: char) {
    IsDigit(c) || c == ':' || c == 'b'
  }

  lemma ChapterVerseChars(m: string)
    requires IsChapterVerse(m)
    ensures |m| > 0 && IsDigit(m[0]) && forall k :: 0 <= k < |m| ==> LocatorChar(m[k])
  {
    var c :| 0 < c < |m| - 1 && AllDigits(m[..c]) && m[c] == ':' && AllDigits(m[c + 1..]);
    var front, back := m[..c], m[c + 1..];
    assert front[0] == m[0];
    forall k | 0 <= k < |m| ensures LocatorChar(m[k]) {
      if k < c {
        assert front[k] == m[k];
      } else if k > c {
        assert back[k - c - 1] == m[k];
      }
    }
  }

  lemma LocatorStartsWithDigit(l: string)
    requires IsLocator(l)
    ensures |l| > 0 && IsDigit(l[0]) && forall k :: 0 <= k < |l| ==> LocatorChar(l[k])
  {
    if IsChapterVerse(l) {
      ChapterVerseChars(l);
    } else {
      var m := l[..|l| - 1];
      ChapterVerseChars(m);
      assert forall k :: 0 <= k < |m| ==> m[k] == l[k];
    }
  }

  /** Where the match must place its parts: the end before a final newline,
      the locator after the optional digit and the run of letters. */
  function SplitPoint(s: string): (p: (nat, nat))
    ensures p.0 <= p.1 <= |s|
    ensures forall i: nat, j: nat :: Splits(s, i, j) ==> i == p.0 && j == p.1
  {
    var j := if |s| > 0 && s[|s| - 1] == '\n' then |s| - 1 else |s|;
    var d := if |s| > 0 && '1' <= s[0] <= '3' && j > 0 then 1 else 0;
    var i := d + LetterRun(s[d..j]);
    assert forall i': nat, j': nat :: Splits(s, i', j') ==> i' == i && j' == j by {
      forall i': nat, j': nat | Splits(s, i', j') ensures i' == i && j' == j {
        LocatorStartsWithDigit(s[i'..j']);
        assert s[i'..j'][0] == s[i'];
        assert j' == |s| ==> s[i'..j'][|s| - 1 - i'] == s[|s| - 1];
        assert s[j'..] == "\n" ==> j' == |s| - 1 && s[j'..][0] == s[|s| - 1];
        assert j' == j;
        BookRun(s, i', d, j);
      }
    }
    (i, j)
  }

  /** A book ending at `i` before a digit is the optional digit and the full
      run of letters. */
  lemma BookRun(s: string, i: nat, d: nat, j: nat)
    requires i < j <= |s| && IsBook(s[..i]) && IsDigit(s[i])
    requires d == (if |s| > 0 && '1' <= s[0] <= '3' && j > 0 then 1 else 0)
    ensures i == d + LetterRun(s[d..j])
  {
    var b := s[..i];
    if d == 1 {
      assert !IsLetter(b[0]);
      assert AllLetters(b[1..]);
      assert s[1..j][..i - 1] == b[1..];
    } else {
      assert AllLetters(b);
      assert s[0..j][..i] == b;
    }
    var t := s[d..j];
    assert t[..i - d] == s[d..i];
    assert AllLetters(t[..i - d]);
    assert !IsLetter(t[i - d]);
    LetterRunIs(t, i - d);
  }

  lemma {:induction false} LetterRunIs(t: string, n: nat)
    requires n < |t| && AllLetters(t[..n]) && !IsLetter(t[n])
    ensures LetterRun(t) == n
  {
    if n > 0 {
      assert IsLetter(t[..n][0]);
      assert t[1..][..n - 1] == t[1..n];
      LetterRunIs(t[1..], n - 1);
    }
  }

  /** `add_space_after_book`: when the whole reference is a book followed by
      a chapter-and-verse locator, one space goes between them; any other
      string comes back unchanged. */
  function AddSpaceAfterBook(s: string): (r: string)
    ensures forall i: nat, j: nat :: Splits(s, i, j) ==> r == s[..i] + " " + s[i..]
    ensures (forall i: nat, j: nat :: !Splits(s, i, j)) ==> r == s
  {
    var (i, j) := SplitPoint(s);
    if Splits(s, i, j) then s[..i] + " " + s[i..] else s
  }

  /** The spaced form no longer matches, so spacing again changes nothing. */
  lemma AddSpaceAfterBookIdempotent(s: string)
    ensures AddSpaceAfterBook(AddSpaceAfterBook(s)) == AddSpaceAfterBook(s)
  {
    var (i, j) := SplitPoint(s);
    if Splits(s, i, j) {
      var r := s[..i] + " " + s[i..];
      assert r[i] == ' ';
      forall i': nat, j': nat ensures !Splits(r, i', j') {
        if Splits(r, i', j') {
          MatchHasNoSpace(r, i', j');
        }
      }
    }
  }

  /** No part of a match holds a space. */
  lemma MatchHasNoSpace(r: string, i: nat, j: nat)
    requires Splits(r, i, j)
    ensures forall p :: 0 <= p < |r| ==> r[p] != ' '
  {
    LocatorStartsWithDigit(r[i..j]);
    var b := r[..i];
    forall p | 0 <= p < |r| ensures r[p] != ' ' {
      if p < i {
        assert b[p] == r[p];
        if !AllLetters(b) {
          if p > 0 {
            assert b[1..][p - 1] == r[p];
          }
        }
      } else if p < j {
        assert r[i..j][p - i] == r[p];
      } else {
        assert r[j..][p - j] == r[p];
      }
    }
  }

  lemma SpaceThirdJohn()
    ensures AddSpaceAfterBook("3John4:5") == "3John 4:5"
  {
    var s := "3John4:5";
    assert s[..5] == "3John" && s[5..8] == "4:5" && s[8..] == "";
    assert "4:5"[..1] == "4" && "4:5"[2..] == "5";
    assert IsChapterVerse("4:5");
    assert Splits(s, 5, 8);
  }

  /** The two normalisers together: "IIIJohn4:5" becomes "3John 4:5". */
  lemma NormaliseThirdJohn()
    ensures AddSpaceAfterBook(ConvertRomanPrefix("IIIJohn4:5")) == "3John 4:5"
  {
    ConvertThirdJohn();
    SpaceThirdJohn();
  }

  // ---------------------------------------------------------------------------
  // The fields of one rubric

  const HeadStep := Step(None, "head", None)
  const OrigStep := Step(None, "orig", None)
  const TranslationStep := Step(None, "reg", Some(AttrTest("type", "translation")))
  const AnchorStep := Step(None, "anchor", None)

  /** The values handed to the rubric template. */
  datatype Fields = Fields(
    originalText: string,
    translation: string,
    verse: string,
    facs: string,
    source: string,
    folio: string)

  /** Which fields the report shows. */
  datatype Display = Display(verse: bool, folio: bool, facs: bool)

  /** The first element an unprefixed step finds below `e`; such a lookup
      never fails. */
  function Find(e: Node, step: Step): Option<Node>
    requires step.prefix.None?
  {
    FindElement(Some(e), step).value
  }

  /** `attrib.get(name, "")` on an element that may be absent. */
  function AttrOr(e: Option<Node>, name: string): string {
    if e.Some? && name in e.value.attrs then e.value.attrs[name] else ""
  }

  /** One leading `#` removed, as from a same-document reference. */
  function DropHash(s: string): (r: string)
    ensures |s| > 0 && s[0] == '#' ==> s == "#" + r
    ensures !(|s| > 0 && s[0] == '#') ==> r == s
  {
    if |s| > 0 && s[0] == '#' then s[1..] else s
  }

  /** The verse reference as displayed: a Roman book number made decimal,
      then a space before the chapter and verse. */
  function DisplayVerse(corresp: string): string {
    AddSpaceAfterBook(ConvertRomanPrefix(corresp))
  }

  /** What one rubric contributes, or None when it has no `head`. The texts
      are taken with their tails; in the translation every " ." becomes
      "."; the link, source and folio come from the first `anchor`. */
  function RubricFields(element: Node): Option<Fields> {
    match Find(element, HeadStep)
    case None => None
    case Some(head) =>
      var translation := TextOf(Find(head, TranslationStep), true);
      var anchor := Find(element, AnchorStep);
      Some(Fields(
        TextOf(Find(head, OrigStep), true),
        Replace(translation, " .", "."),
        DisplayVerse(AttrOr(Some(element), "corresp")),
        AttrOr(anchor, "facs"),
        DropHash(AttrOr(anchor, "source")),
        AttrOr(anchor, "n")))
  }

  /** A rubric contributes exactly when it has a head; its original text is
      stripped; a missing translation gives the empty translation and a
      missing anchor empty link, source and folio; the verse is the
      normalised `corresp`, empty when there is none. */
  lemma RubricFieldsDefaults(element: Node)
    ensures var r := RubricFields(element);
            && (r.None? <==> Find(element, HeadStep).None?)
            && (r.Some? ==> IsStripped(r.value.originalText))
            && (r.Some? ==> r.value.verse == DisplayVerse(AttrOr(Some(element), "corresp")))
            && (r.Some? && Find(Find(element, HeadStep).value, TranslationStep).None? ==> r.value.translation == "")
            && (r.Some? && Find(element, AnchorStep).None? ==> r.value.facs == r.value.source == r.value.folio == "")
  {
  }

  /** Reads the fields of one rubric, or None when it has no head. */
  method ReadFields(element: Node) returns (r: Option<Fields>)
    ensures r == RubricFields(element)
  {
    var head := FindElement(Some(element), HeadStep).value;
    if head.None? {
      return None;
    }
    var orig := FindElement(head, OrigStep).value;
    var originalText := ExtractText(orig, true);
    var translationElement := FindElement(head, TranslationStep).value;
    var translation := "";
    if translationElement.Some? {
      translation := ExtractText(translationElement, true);
    }
    translation := Replace(translation, " .", ".");
    var anchor := FindElement(Some(element), AnchorStep).value;
    var facs := AttrOr(anchor, "facs");
    var source := DropHash(AttrOr(anchor, "source"));
    var folio := AttrOr(anchor, "n");
    var verse := DisplayVerse(AttrOr(Some(element), "corresp"));
    r := Some(Fields(originalText, translation, verse, facs, source, folio));
  }

  /** The fields after the display switches: the verse blanked unless shown,
      the link shown only with both folio and links on, source and folio
      blanked unless folios are shown. */
  function Shown(f: Fields, display: Display): Fields {
    f.(verse := if display.verse then f.verse else "",
       facs := if display.folio && display.facs then f.facs else "",
       source := if display.folio then f.source else "",
       folio := if display.folio then f.folio else "")
  }

  /** With folios off nothing about the witness's page is shown, whatever
      the link switch says; the texts are always shown. */
  lemma ShownWithoutFolio(f: Fields, display: Display)
    requires !display.folio
    ensures var g := Shown(f, display);
            g.facs == g.source == g.folio == "" && g.originalText == f.originalText && g.translation == f.translation
  {
  }

  /** With every switch on the template sees the fields as read. */
  lemma ShownEverything(f: Fields)
    ensures Shown(f, Display(true, true, true)) == f
  {
  }

  // ---------------------------------------------------------------------------
  // Cells and rows

  /** The rendered item of one rubric: none when it has no head. */
  function ItemOf(element: Node, display: Display, render: Fields -> string): (r: seq<string>)
    ensures |r| <= 1
  {
    match RubricFields(element)
    case None => []
    case Some(f) => [render(Shown(f, display))]
  }

  /** The parts `f` gives for each element, concatenated in order. */
  function FlatMap<T>(xs: seq<T>, f: T -> seq<string>): seq<string> {
    if xs == [] then [] else FlatMap(xs[..|xs| - 1], f) + f(xs[|xs| - 1])
  }

  lemma {:induction false} FlatMapConcat<T>(a: seq<T>, b: seq<T>, f: T -> seq<string>)
    ensures FlatMap(a + b, f) == FlatMap(a, f) + FlatMap(b, f)
    decreases |b|
  {
    if b == [] {
      assert a + b == a;
    } else {
      assert (a + b)[..|a + b| - 1] == a + b[..|b| - 1];
      assert (a + b)[|a + b| - 1] == b[|b| - 1];
      FlatMapConcat(a, b[..|b| - 1], f);
    }
  }

  /** The rendered items of a list of rubrics, in list order. */
  function Items(elements: seq<Node>, display: Display, render: Fields -> string): seq<string> {
    FlatMap(elements, e => ItemOf(e, display, render))
  }

  /** Each rubric contributes on its own, in list order. */
  lemma ItemsConcat(a: seq<Node>, b: seq<Node>, display: Display, render: Fields -> string)
    ensures Items(a + b, display, render) == Items(a, display, render) + Items(b, display, render)
  {
    FlatMapConcat(a, b, e => ItemOf(e, display, render));
  }

  /** Every rubric with a head gives exactly one item. */
  lemma {:induction false} ItemsAllHeaded(elements: seq<Node>, display: Display, render: Fields -> string)
    requires forall i :: 0 <= i < |elements| ==> Find(elements[i], HeadStep).Some?
    ensures |Items(elements, display, render)| == |elements|
  {
    if elements != [] {
      ItemsAllHeaded(elements[..|elements| - 1], display, render);
      RubricFieldsDefaults(elements[|elements| - 1]);
    }
  }

  /** The items loop of the export: rubrics without a head are skipped. */
  method RenderItems(elements: seq<Node>, display: Display, render: Fields -> string) returns (items: seq<string>)
    ensures items == Items(elements, display, render)
  {
    items := [];
    for i := 0 to |elements|
      invariant items == Items(elements[..i], display, render)
    {
      assert elements[..i + 1][..i] == elements[..i];
      var fields := ReadFields(elements[i]);
      if fields.None? {
        continue;
      }
      items := items + [render(Shown(fields.value, display))];
    }
    assert elements[..|elements|] == elements;
  }

  /** The cell of a key and a siglum: the items joined by a rule, or empty
      when the witness has nothing under the key. */
  function Cell(data: Grouping, key: string, siglum: string, display: Display, render: Fields -> string): string {
    if HasCell(data, key, siglum) then Join("<hr>\n", Items(Lookup(data, key, siglum), display, render)) else ""
  }

  /** A witness with a single headed rubric under a key shows exactly that
      rubric's rendering. */
  lemma CellSingle(data: Grouping, key: string, siglum: string, display: Display, render: Fields -> string)
    requires |Lookup(data, key, siglum)| == 1
    requires RubricFields(Lookup(data, key, siglum)[0]).Some?
    ensures Cell(data, key, siglum, display, render)
            == render(Shown(RubricFields(Lookup(data, key, siglum)[0]).value, display))
  {
    var es := Lookup(data, key, siglum);
    assert HasCell(data, key, siglum);
    var items := Items(es, display, render);
    ItemsSingle(es, display, render);
    assert items == [render(Shown(RubricFields(es[0]).value, display))];
  }

  lemma ItemsSingle(es: seq<Node>, display: Display, render: Fields -> string)
    requires |es| == 1
    ensures Items(es, display, render) == ItemOf(es[0], display, render)
  {
    FlatMapSingle(es, e => ItemOf(e, display, render));
  }

  lemma FlatMapSingle<T>(xs: seq<T>, f: T -> seq<string>)
    requires |xs| == 1
    ensures FlatMap(xs, f) == f(xs[0])
  {
    assert xs[..0] == [];
  }

  /** The rendered table: a header row and one row per key. */
  datatype Table = Table(headers: seq<string>, rows: seq<seq<string>>)

  /** One row of the export: the key, then the cell of each siglum in turn. */
  method BuildRow(data: Grouping, key: string, sigla: seq<string>, display: Display, render: Fields -> string)
    returns (row: seq<string>)
    ensures |row| == 1 + |sigla| && row[0] == key
    ensures forall j :: 0 <= j < |sigla| ==> row[j + 1] == Cell(data, key, sigla[j], display, render)
  {
    var cells: seq<string> := [];
    for j := 0 to |sigla|
      invariant |cells| == j
      invariant forall n :: 0 <= n < j ==> cells[n] == Cell(data, key, sigla[n], display, render)
    {
      var cell := BuildCell(data, key, sigla[j], display, render);
      cells := cells + [cell];
    }
    row := [key] + cells;
  }

  /** One cell of the export. */
  method BuildCell(data: Grouping, key: string, siglum: string, display: Display, render: Fields -> string)
    returns (cell: string)
    ensures cell == Cell(data, key, siglum, display, render)
  {
    cell := "";
    if HasCell(data, key, siglum) {
      var items := RenderItems(Lookup(data, key, siglum), display, render);
      cell := Join("<hr>\n", items);
    }
  }

  /** `t` is the export of `data`: one row per key, in key order, each the
      key and then one cell per siglum, under `[keyName] + sigla`. */
  predicate Exports(t: Table, data: Grouping, keyName: string, sigla: seq<string>, display: Display, render: Fields -> string) {
    && t.headers == [keyName] + sigla
    && |t.rows| == |data.keys|
    && (forall i :: 0 <= i < |t.rows| ==> |t.rows[i]| == 1 + |sigla| && t.rows[i][0] == data.keys[i])
    && (forall i, j :: 0 <= i < |t.rows| && 0 <= j < |sigla| ==>
          t.rows[i][j + 1] == Cell(data, data.keys[i], sigla[j], display, render))
  }

  /** `export_data` up to the rendering of the page: rows in the order of
      the map's keys, each the key followed by one cell per siglum in the
      order of `sigla`, under the headers `[keyName] + sigla`. */
  method ExportData(data: Grouping, keyName: string, sigla: seq<string>, display: Display, render: Fields -> string)
    returns (t: Table)
    ensures t.headers == [keyName] + sigla
    ensures |t.rows| == |data.keys|
    ensures forall i :: 0 <= i < |t.rows| ==> |t.rows[i]| == 1 + |sigla| && t.rows[i][0] == data.keys[i]
    ensures forall i, j :: 0 <= i < |t.rows| && 0 <= j < |sigla| ==>
              t.rows[i][j + 1] == Cell(data, data.keys[i], sigla[j], display, render)
  {
    var rows: seq<seq<string>> := [];
    for i := 0 to |data.keys|
      invariant |rows| == i
      invariant forall m :: 0 <= m < i ==> |rows[m]| == 1 + |sigla| && rows[m][0] == data.keys[m]
      invariant forall m, j :: 0 <= m < i && 0 <= j < |sigla| ==>
                  rows[m][j + 1] == Cell(data, data.keys[m], sigla[j], display, render)
    {
      var row := BuildRow(data, data.keys[i], sigla, display, render);
      rows := rows + [row];
    }
    t := Table([keyName] + sigla, rows);
  }
}
