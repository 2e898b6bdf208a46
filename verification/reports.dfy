/** The two reports of the command line: rubrics grouped by the feast date
    they are read on, or by the verse they cite, with one column per witness.
    Each report files the rubrics of every document into a grouping, orders
    the grouping's keys by their rank in a canonical list and exports it. */
module Reports {
  import opened Basics
  import opened Strings
  import opened Tei
  import opened Ranking
  import opened Grouping
  import opened Export

  // ---------------------------------------------------------------------------
  // The lookups the reports make

  /** The qualified name of the `xml:id` attribute. */
  const XmlIdAttr: string := "{" + XmlNamespace + "}id"
  const WhenCustom: string := "when-custom"

  const StandOffStep := Step(None, "standOff", None)
  const ListEventStep := Step(None, "listEvent", None)
  const EventStep := Step(None, "event", None)
  const LabelStep := Step(None, "label", None)
  const RubricStep := Step(None, "div", Some(AttrTest("type", "rubric")))
  const DateStep := Step(None, "date", None)

  function PlaceStep(place: string): Step {
    Step(None, "placeName", Some(AttrTest("ref", place)))
  }

  /** The rubric divisions of a document, in document order. */
  function Rubrics(doc: Node): seq<Node> {
    FindElements(Some(doc), RubricStep).value
  }

  /** The date references of a rubric, in document order. */
  function Dates(rubric: Node): seq<Node> {
    FindElements(Some(rubric), DateStep).value
  }

  /** The place filter: with a place given, only a rubric that names it is
      kept; with none, every rubric is. */
  predicate Kept(rubric: Node, place: string) {
    place == "" || Find(rubric, PlaceStep(place)).Some?
  }

  /** `[f(x) for x in xs]` where `f` may fail: the first failure escapes. */
  function MapAll<T, U>(xs: seq<T>, f: T -> Result<U>): Result<seq<U>> {
    if xs == [] then Ok([])
    else
      var init :- MapAll(xs[..|xs| - 1], f);
      var y :- f(xs[|xs| - 1]);
      Ok(init + [y])
  }

  /** The mapping succeeds exactly when `f` succeeds on every element, and
      then gives what `f` gives, in order. */
  lemma {:induction false} MapAllOk<T, U>(xs: seq<T>, f: T -> Result<U>)
    ensures MapAll(xs, f).Ok? <==> forall i :: 0 <= i < |xs| ==> f(xs[i]).Ok?
    ensures MapAll(xs, f).Ok? ==>
              |MapAll(xs, f).value| == |xs| &&
              forall i :: 0 <= i < |xs| ==> MapAll(xs, f).value[i] == f(xs[i]).value
    decreases |xs|
  {
    if xs != [] {
      var init := xs[..|xs| - 1];
      MapAllOk(init, f);
      assert forall i :: 0 <= i < |init| ==> init[i] == xs[i];
    }
  }

  /** A failed mapping fails as `f` does on some element. */
  lemma {:induction false} MapAllErr<T, U>(xs: seq<T>, f: T -> Result<U>)
    ensures MapAll(xs, f).Err? ==> exists i :: 0 <= i < |xs| && f(xs[i]) == Err(MapAll(xs, f).error)
    decreases |xs|
  {
    if xs != [] {
      var init := xs[..|xs| - 1];
      MapAllErr(init, f);
      assert forall i :: 0 <= i < |init| ==> init[i] == xs[i];
    }
  }

  lemma MapAllNext<T, U>(xs: seq<T>, k: nat, f: T -> Result<U>)
    requires k < |xs| && MapAll(xs[..k], f).Ok? && f(xs[k]).Ok?
    ensures MapAll(xs[..k + 1], f) == Ok(MapAll(xs[..k], f).value + [f(xs[k]).value])
  {
    assert xs[..k + 1][..k] == xs[..k];
  }

  lemma {:induction false} MapAllStops<T, U>(xs: seq<T>, k: nat, f: T -> Result<U>)
    requires k <= |xs| && MapAll(xs[..k], f).Err?
    ensures MapAll(xs, f) == MapAll(xs[..k], f)
    decreases |xs|
  {
    if k < |xs| {
      var init := xs[..|xs| - 1];
      assert init[..k] == xs[..k];
      MapAllStops(init, k, f);
    } else {
      assert xs[..k] == xs;
    }
  }

  lemma MapAllFails<T, U>(xs: seq<T>, k: nat, f: T -> Result<U>)
    requires k < |xs| && MapAll(xs[..k], f).Ok? && f(xs[k]).Err?
    ensures MapAll(xs, f) == Err(f(xs[k]).error)
  {
    assert xs[..k + 1][..k] == xs[..k];
    MapAllStops(xs, k + 1, f);
  }

  /** The siglum of every document, in order; the first failure escapes. */
  function Sigla(docs: seq<Node>): Result<seq<string>> {
    MapAll(docs, GetSiglum)
  }

  // ---------------------------------------------------------------------------
  // Runs of filings that may fail part-way

  /** Runs `f` over `xs` in order and concatenates what it gives; the first
      failure escapes and ends the run. */
  function Collect<T>(xs: seq<T>, f: T -> Result<seq<Entry>>): Result<seq<Entry>> {
    if xs == [] then Ok([])
    else
      var es :- Collect(xs[..|xs| - 1], f);
      var more :- f(xs[|xs| - 1]);
      Ok(es + more)
  }

  /** A run fails exactly when one of its steps does. */
  lemma {:induction false} CollectOk<T>(xs: seq<T>, f: T -> Result<seq<Entry>>)
    ensures Collect(xs, f).Ok? <==> forall i :: 0 <= i < |xs| ==> f(xs[i]).Ok?
    decreases |xs|
  {
    if xs != [] {
      var init := xs[..|xs| - 1];
      CollectOk(init, f);
      assert forall i :: 0 <= i < |init| ==> init[i] == xs[i];
    }
  }

  /** What every step files satisfies `p`, so what the run files does. */
  lemma {:induction false} CollectAll<T>(xs: seq<T>, f: T -> Result<seq<Entry>>, p: Entry -> bool)
    requires forall i :: 0 <= i < |xs| && f(xs[i]).Ok? ==> forall e :: e in f(xs[i]).value ==> p(e)
    ensures Collect(xs, f).Ok? ==> forall e :: e in Collect(xs, f).value ==> p(e)
    decreases |xs|
  {
    if xs != [] {
      var init := xs[..|xs| - 1];
      assert forall i :: 0 <= i < |init| ==> init[i] == xs[i];
      CollectAll(init, f, p);
    }
  }

  /** The run up to one more successful step. */
  lemma CollectNext<T>(xs: seq<T>, k: nat, f: T -> Result<seq<Entry>>)
    requires k < |xs| && Collect(xs[..k], f).Ok? && f(xs[k]).Ok?
    ensures Collect(xs[..k + 1], f) == Ok(Collect(xs[..k], f).value + f(xs[k]).value)
  {
    assert xs[..k + 1][..k] == xs[..k];
  }

  /** Once a prefix of the run has failed, the whole run fails the same way. */
  lemma {:induction false} CollectStops<T>(xs: seq<T>, k: nat, f: T -> Result<seq<Entry>>)
    requires k <= |xs| && Collect(xs[..k], f).Err?
    ensures Collect(xs, f) == Collect(xs[..k], f)
    decreases |xs|
  {
    if k < |xs| {
      var init := xs[..|xs| - 1];
      assert init[..k] == xs[..k];
      CollectStops(init, k, f);
    } else {
      assert xs[..k] == xs;
    }
  }

  /** The first failing step decides the failure of the run. */
  lemma CollectFails<T>(xs: seq<T>, k: nat, f: T -> Result<seq<Entry>>)
    requires k < |xs| && Collect(xs[..k], f).Ok? && f(xs[k]).Err?
    ensures Collect(xs, f) == Err(f(xs[k]).error)
  {
    assert xs[..k + 1][..k] == xs[..k];
    CollectStops(xs, k + 1, f);
  }

  /** The grouping after appending a run, or the run's failure. */
  function Appended(g: Grouping, es: Result<seq<Entry>>): (r: Result<Grouping>)
    ensures r.Err? <==> es.Err?
  {
    if es.Err? then Err(es.error) else Ok(AppendAll(g, es.value))
  }

  /** The grouping after assigning a run, or the run's failure. */
  function Assigned(g: Grouping, es: Result<seq<Entry>>): (r: Result<Grouping>)
    ensures r.Err? <==> es.Err?
  {
    if es.Err? then Err(es.error) else Ok(PutAll(g, es.value))
  }

  /** One step of a loop that appends run `f` over `xs`: the grouping `g`
      holds the first `k` steps, `filed` is `g` after step `k`. */
  lemma AppendedNext<T>(g0: Grouping, xs: seq<T>, k: nat, f: T -> Result<seq<Entry>>, g: Grouping, filed: Result<Grouping>)
    requires k < |xs| && Collect(xs[..k], f).Ok? && g == AppendAll(g0, Collect(xs[..k], f).value)
    requires filed == Appended(g, f(xs[k]))
    ensures filed.Err? ==> Appended(g0, Collect(xs, f)) == filed
    ensures filed.Ok? ==> Collect(xs[..k + 1], f).Ok? && filed.value == AppendAll(g0, Collect(xs[..k + 1], f).value)
  {
    if filed.Err? {
      CollectFails(xs, k, f);
    } else {
      CollectNext(xs, k, f);
      AppendAllConcat(g0, Collect(xs[..k], f).value, f(xs[k]).value);
    }
  }

  /** One step of a loop that assigns run `f` over `xs`. */
  lemma AssignedNext<T>(g0: Grouping, xs: seq<T>, k: nat, f: T -> Result<seq<Entry>>, g: Grouping, filed: Result<Grouping>)
    requires k < |xs| && Collect(xs[..k], f).Ok? && g == PutAll(g0, Collect(xs[..k], f).value)
    requires filed == Assigned(g, f(xs[k]))
    ensures filed.Err? ==> Assigned(g0, Collect(xs, f)) == filed
    ensures filed.Ok? ==> Collect(xs[..k + 1], f).Ok? && filed.value == PutAll(g0, Collect(xs[..k + 1], f).value)
  {
    if filed.Err? {
      CollectFails(xs, k, f);
    } else {
      CollectNext(xs, k, f);
      PutAllConcat(g0, Collect(xs[..k], f).value, f(xs[k]).value);
    }
  }

  // ---------------------------------------------------------------------------
  // The table of date names

  /** The dates the first document defines: ids in order of definition and
      the name each id stands for. */
  datatype DateTable = DateTable(ids: seq<string>, names: map<string, string>)

  predicate ValidTable(t: DateTable) {
    && Distinct(t.ids)
    && (forall id :: id in t.ids ==> id in t.names)
    && (forall id :: id in t.names ==> id in t.ids)
  }

  /** The text of an event's first label, tail included; empty without one. */
  function Label(e: Node): string {
    TextOf(Find(e, LabelStep), true)
  }

  /** The id an event defines and the name it gives it: its label, or the id
      itself when the label is missing or empty. An event without an id
      fails the attribute lookup. */
  function EventName(e: Node): (r: Result<(string, string)>)
    ensures r.Err? <==> XmlIdAttr !in e.attrs
    ensures r.Err? ==> r.error == KeyMissing(XmlIdAttr)
    ensures r.Ok? ==> r.value.0 == e.attrs[XmlIdAttr]
    ensures r.Ok? && Label(e) != "" ==> r.value.1 == Label(e)
    ensures r.Ok? && Label(e) == "" ==> r.value.1 == r.value.0
    ensures r.Ok? ==> (r.value.1 == "" <==> r.value.0 == "" && Label(e) == "")
  {
    if XmlIdAttr !in e.attrs then Err(KeyMissing(XmlIdAttr))
    else
      var id := e.attrs[XmlIdAttr];
      var text := Label(e);
      Ok((id, if text != "" then text else id))
  }

  /** `date_dict[id] = name`: a new id goes last, a known one keeps its place
      and takes the new name. */
  function Define(t: DateTable, id: string, name: string): DateTable {
    DateTable(WithKey(t.ids, id), t.names[id := name])
  }

  /** The table the events define, one definition after another; the first
      event without an id escapes as a failure. */
  function DateTableOf(events: seq<Node>): Result<DateTable> {
    var defs :- MapAll(events, EventName);
    Ok(DefineAll(defs))
  }

  function DefineAll(defs: seq<(string, string)>): DateTable {
    if defs == [] then DateTable([], map[])
    else
      var d := defs[|defs| - 1];
      Define(DefineAll(defs[..|defs| - 1]), d.0, d.1)
  }

  /** Building the table fails exactly when an event has no id, and then
      with the missing attribute. */
  lemma DateTableFails(events: seq<Node>)
    ensures DateTableOf(events).Err? <==> exists i :: 0 <= i < |events| && XmlIdAttr !in events[i].attrs
    ensures DateTableOf(events).Err? ==> DateTableOf(events).error == KeyMissing(XmlIdAttr)
  {
    MapAllOk(events, EventName);
    MapAllErr(events, EventName);
  }

  /** Definitions list each id once, and exactly the ids defined. */
  lemma {:induction false} DefineAllIds(defs: seq<(string, string)>)
    ensures ValidTable(DefineAll(defs))
    ensures forall id :: id in DefineAll(defs).names <==> exists i :: 0 <= i < |defs| && defs[i].0 == id
    decreases |defs|
  {
    if defs != [] {
      var init := defs[..|defs| - 1];
      DefineAllIds(init);
      assert forall i :: 0 <= i < |init| ==> init[i] == defs[i];
    }
  }

  /** The last definition of an id gives its name. */
  lemma {:induction false} DefineAllLast(defs: seq<(string, string)>, i: nat)
    requires i < |defs|
    requires forall j :: i < j < |defs| ==> defs[j].0 != defs[i].0
    ensures defs[i].0 in DefineAll(defs).names && DefineAll(defs).names[defs[i].0] == defs[i].1
    decreases |defs|
  {
    if i < |defs| - 1 {
      var init := defs[..|defs| - 1];
      assert init[i] == defs[i];
      DefineAllLast(init, i);
    }
  }

  /** A built table lists each id once, and exactly the ids the events define. */
  lemma DateTableIds(events: seq<Node>)
    ensures var r := DateTableOf(events);
            r.Ok? ==> ValidTable(r.value)
                      && forall id :: id in r.value.names <==>
                           exists i :: 0 <= i < |events| && XmlIdAttr in events[i].attrs && events[i].attrs[XmlIdAttr] == id
  {
    MapAllOk(events, EventName);
    var defs := MapAll(events, EventName);
    if defs.Ok? {
      DefineAllIds(defs.value);
      forall id ensures id in DefineAll(defs.value).names <==>
          exists i :: 0 <= i < |events| && XmlIdAttr in events[i].attrs && events[i].attrs[XmlIdAttr] == id {
        if id in DefineAll(defs.value).names {
          var i :| 0 <= i < |defs.value| && defs.value[i].0 == id;
          assert XmlIdAttr in events[i].attrs && events[i].attrs[XmlIdAttr] == id;
        }
        if exists i :: 0 <= i < |events| && XmlIdAttr in events[i].attrs && events[i].attrs[XmlIdAttr] == id {
          var i :| 0 <= i < |events| && XmlIdAttr in events[i].attrs && events[i].attrs[XmlIdAttr] == id;
          assert defs.value[i].0 == id;
        }
      }
    }
  }

  /** The name of an id is given by the last event defining it. */
  lemma DateTableLast(events: seq<Node>, i: nat)
    requires DateTableOf(events).Ok? && i < |events|
    requires XmlIdAttr in events[i].attrs
    requires forall j :: i < j < |events| ==> XmlIdAttr !in events[j].attrs || events[j].attrs[XmlIdAttr] != events[i].attrs[XmlIdAttr]
    ensures var id := events[i].attrs[XmlIdAttr];
            id in DateTableOf(events).value.names && DateTableOf(events).value.names[id] == EventName(events[i]).value.1
  {
    MapAllOk(events, EventName);
    var defs := MapAll(events, EventName).value;
    DefineAllLast(defs, i);
  }

  /** `date_dict.values()`: the names in order of definition. */
  function Labels(t: DateTable): (r: seq<string>)
    requires ValidTable(t)
    ensures |r| == |t.ids|
    ensures forall i :: 0 <= i < |r| ==> r[i] == t.names[t.ids[i]]
  {
    seq(|t.ids|, i requires 0 <= i < |t.ids| => t.names[t.ids[i]])
  }

  /** Builds the table one event at a time. */
  method BuildDateTable(events: seq<Node>) returns (r: Result<DateTable>)
    ensures r == DateTableOf(events)
  {
    var t := DateTable([], map[]);
    ghost var defs: seq<(string, string)> := [];
    for i := 0 to |events|
      invariant MapAll(events[..i], EventName) == Ok(defs)
      invariant t == DefineAll(defs)
    {
      var event := events[i];
      if XmlIdAttr !in event.attrs {
        MapAllFails(events, i, EventName);
        return Err(KeyMissing(XmlIdAttr));
      }
      var id := event.attrs[XmlIdAttr];
      var name := ExtractText(Find(event, LabelStep), true);
      if name == "" {
        name := id;
      }
      MapAllNext(events, i, EventName);
      assert (defs + [(id, name)])[..|defs|] == defs;
      defs := defs + [(id, name)];
      t := Define(t, id, name);
    }
    assert events[..|events|] == events;
    r := Ok(t);
  }

  // ---------------------------------------------------------------------------
  // Filing by date

  /** The name a date reference files its rubric under: the id without one
      leading `#`, looked up in the table, or the id itself when the table
      does not know it. */
  function DateName(table: DateTable, ref: string): string {
    var id := DropHash(ref);
    if id in table.names then table.names[id] else id
  }

  /** A reference with or without its `#` resolves alike, and an unknown id
      resolves to itself. */
  lemma DateNameFallback(table: DateTable, id: string)
    requires id == [] || id[0] != '#'
    ensures DateName(table, "#" + id) == DateName(table, id)
    ensures id !in table.names ==> DateName(table, id) == id
  {
    assert ("#" + id)[1..] == id;
  }

  /** One date reference files its rubric once, under its resolved name. A
      reference without `when-custom` fails the attribute lookup. */
  function DateEntry(date: Node, rubric: Node, siglum: string, table: DateTable): Result<seq<Entry>> {
    if WhenCustom !in date.attrs then Err(KeyMissing(WhenCustom))
    else Ok([Entry(DateName(table, date.attrs[WhenCustom]), siglum, rubric)])
  }

  function DateFiler(rubric: Node, siglum: string, table: DateTable): Node -> Result<seq<Entry>> {
    d => DateEntry(d, rubric, siglum, table)
  }

  /** A kept rubric is filed once per date reference; a filtered one not at all. */
  function RubricDateEntries(rubric: Node, siglum: string, place: string, table: DateTable): Result<seq<Entry>> {
    if !Kept(rubric, place) then Ok([])
    else Collect(Dates(rubric), DateFiler(rubric, siglum, table))
  }

  function RubricDateFiler(siglum: string, place: string, table: DateTable): Node -> Result<seq<Entry>> {
    r => RubricDateEntries(r, siglum, place, table)
  }

  /** A document's rubrics, filed under its siglum. */
  function DocDateEntries(doc: Node, place: string, table: DateTable): Result<seq<Entry>> {
    var siglum :- GetSiglum(doc);
    Collect(Rubrics(doc), RubricDateFiler(siglum, place, table))
  }

  function DocDateFiler(place: string, table: DateTable): Node -> Result<seq<Entry>> {
    d => DocDateEntries(d, place, table)
  }

  /** Every filing of the date report, document by document. */
  function DateEntries(docs: seq<Node>, place: string, table: DateTable): Result<seq<Entry>> {
    Collect(docs, DocDateFiler(place, table))
  }

  /** The filings of a rubric's dates: the i-th date files the rubric under
      its siglum and the i-th date's resolved name. */
  lemma {:induction false} DatesFiled(dates: seq<Node>, rubric: Node, siglum: string, table: DateTable)
    ensures Collect(dates, DateFiler(rubric, siglum, table)).Ok? <==> forall i :: 0 <= i < |dates| ==> WhenCustom in dates[i].attrs
    ensures var r := Collect(dates, DateFiler(rubric, siglum, table));
            r.Ok? ==> |r.value| == |dates| &&
                      forall i :: 0 <= i < |dates| ==> r.value[i] == Entry(DateName(table, dates[i].attrs[WhenCustom]), siglum, rubric)
    decreases |dates|
  {
    if dates != [] {
      var init := dates[..|dates| - 1];
      DatesFiled(init, rubric, siglum, table);
      assert forall i :: 0 <= i < |init| ==> init[i] == dates[i];
    }
  }

  /** One step of the innermost loop files what `DateEntry` gives. */
  lemma DateFiled(g: Grouping, date: Node, rubric: Node, siglum: string, table: DateTable, filed: Result<Grouping>)
    requires WhenCustom !in date.attrs ==> filed == Err(KeyMissing(WhenCustom))
    requires WhenCustom in date.attrs ==> filed == Ok(Append(g, DateName(table, date.attrs[WhenCustom]), siglum, rubric))
    ensures filed == Appended(g, DateFiler(rubric, siglum, table)(date))
  {
    if WhenCustom in date.attrs {
      var e := Entry(DateName(table, date.attrs[WhenCustom]), siglum, rubric);
      assert DateFiler(rubric, siglum, table)(date) == Ok([e]);
      assert [e][..0] == [];
      assert AppendAll(g, [e]) == Append(AppendAll(g, []), e.key, e.siglum, e.rubric);
    }
  }

  /** Files the dates of one rubric. */
  method FileDates(data: Grouping, rubric: Node, siglum: string, table: DateTable) returns (r: Result<Grouping>)
    ensures r == Appended(data, Collect(Dates(rubric), DateFiler(rubric, siglum, table)))
  {
    var dates := FindElements(Some(rubric), DateStep).value;
    var g := data;
    for k := 0 to |dates|
      invariant Collect(dates[..k], DateFiler(rubric, siglum, table)).Ok?
      invariant g == AppendAll(data, Collect(dates[..k], DateFiler(rubric, siglum, table)).value)
    {
      var date := dates[k];
      var filed: Result<Grouping>;
      if WhenCustom !in date.attrs {
        filed := Err(KeyMissing(WhenCustom));
      } else {
        var id := date.attrs[WhenCustom];
        if |id| > 0 && id[0] == '#' {
          id := id[1..];
        }
        var name := if id in table.names then table.names[id] else id;
        assert name == DateName(table, date.attrs[WhenCustom]);
        filed := Ok(Append(g, name, siglum, rubric));
      }
      DateFiled(g, date, rubric, siglum, table, filed);
      AppendedNext(data, dates, k, DateFiler(rubric, siglum, table), g, filed);
      if filed.Err? {
        return filed;
      }
      g := filed.value;
    }
    assert dates[..|dates|] == dates;
    r := Ok(g);
  }

  /** Files the kept rubrics of one document under its siglum. */
  method FileRubricsByDate(data: Grouping, doc: Node, siglum: string, place: string, table: DateTable) returns (r: Result<Grouping>)
    ensures r == Appended(data, Collect(Rubrics(doc), RubricDateFiler(siglum, place, table)))
  {
    var rubrics := FindElements(Some(doc), RubricStep).value;
    var g := data;
    for j := 0 to |rubrics|
      invariant Collect(rubrics[..j], RubricDateFiler(siglum, place, table)).Ok?
      invariant g == AppendAll(data, Collect(rubrics[..j], RubricDateFiler(siglum, place, table)).value)
    {
      var rubric := rubrics[j];
      var filed: Result<Grouping>;
      if place != "" && FindElement(Some(rubric), PlaceStep(place)).value.None? {
        filed := Ok(g);
      } else {
        filed := FileDates(g, rubric, siglum, table);
      }
      AppendedNext(data, rubrics, j, RubricDateFiler(siglum, place, table), g, filed);
      if filed.Err? {
        return filed;
      }
      g := filed.value;
    }
    assert rubrics[..|rubrics|] == rubrics;
    r := Ok(g);
  }

  /** The filing loops of the date report: every kept rubric of every
      document, once per date reference, in document order. */
  method FileByDate(docs: seq<Node>, place: string, table: DateTable) returns (r: Result<Grouping>)
    ensures r == Appended(Empty, DateEntries(docs, place, table))
  {
    var g := Empty;
    for i := 0 to |docs|
      invariant Collect(docs[..i], DocDateFiler(place, table)).Ok?
      invariant g == AppendAll(Empty, Collect(docs[..i], DocDateFiler(place, table)).value)
    {
      var doc := docs[i];
      var siglum := GetSiglum(doc);
      var filed: Result<Grouping>;
      if siglum.Err? {
        filed := Err(siglum.error);
      } else {
        filed := FileRubricsByDate(g, doc, siglum.value, place, table);
      }
      AppendedNext(Empty, docs, i, DocDateFiler(place, table), g, filed);
      if filed.Err? {
        return filed;
      }
      g := filed.value;
    }
    assert docs[..|docs|] == docs;
    r := Ok(g);
  }

  // ---------------------------------------------------------------------------
  // Filing by verse

  /** A kept rubric is filed once, under its raw `corresp` ("" without one). */
  function VerseEntry(rubric: Node, siglum: string, place: string): Result<seq<Entry>> {
    if Kept(rubric, place) then Ok([Entry(AttrOr(Some(rubric), "corresp"), siglum, rubric)]) else Ok([])
  }

  function VerseFiler(siglum: string, place: string): Node -> Result<seq<Entry>> {
    r => VerseEntry(r, siglum, place)
  }

  function DocVerseEntries(doc: Node, place: string): Result<seq<Entry>> {
    var siglum :- GetSiglum(doc);
    Collect(Rubrics(doc), VerseFiler(siglum, place))
  }

  function DocVerseFiler(place: string): Node -> Result<seq<Entry>> {
    d => DocVerseEntries(d, place)
  }

  /** Every filing of the verse report, document by document. */
  function VerseEntries(docs: seq<Node>, place: string): Result<seq<Entry>> {
    Collect(docs, DocVerseFiler(place))
  }

  /** One step of the verse loop files what `VerseEntry` gives. */
  lemma VerseFiled(g: Grouping, rubric: Node, siglum: string, place: string, filed: Result<Grouping>)
    requires !Kept(rubric, place) ==> filed == Ok(g)
    requires Kept(rubric, place) ==> filed == Ok(Put(g, AttrOr(Some(rubric), "corresp"), siglum, rubric))
    ensures filed == Assigned(g, VerseFiler(siglum, place)(rubric))
  {
    if Kept(rubric, place) {
      var e := Entry(AttrOr(Some(rubric), "corresp"), siglum, rubric);
      assert VerseFiler(siglum, place)(rubric) == Ok([e]);
      assert [e][..0] == [];
      assert PutAll(g, [e]) == Put(PutAll(g, []), e.key, e.siglum, e.rubric);
    }
  }

  /** Files one rubric under its raw `corresp` when it is kept. */
  method FileRubricByVerse(g: Grouping, rubric: Node, siglum: string, place: string) returns (filed: Result<Grouping>)
    ensures filed == Assigned(g, VerseFiler(siglum, place)(rubric))
  {
    filed := Ok(g);
    if place == "" || FindElement(Some(rubric), PlaceStep(place)).value.Some? {
      var verse := if "corresp" in rubric.attrs then rubric.attrs["corresp"] else "";
      filed := Ok(Put(g, verse, siglum, rubric));
    }
    VerseFiled(g, rubric, siglum, place, filed);
  }

  /** Files the kept rubrics of one document under its siglum. */
  method FileRubricsByVerse(data: Grouping, doc: Node, siglum: string, place: string) returns (r: Result<Grouping>)
    ensures r == Assigned(data, Collect(Rubrics(doc), VerseFiler(siglum, place)))
  {
    var rubrics := FindElements(Some(doc), RubricStep).value;
    var g := data;
    for j := 0 to |rubrics|
      invariant Collect(rubrics[..j], VerseFiler(siglum, place)).Ok?
      invariant g == PutAll(data, Collect(rubrics[..j], VerseFiler(siglum, place)).value)
    {
      var filed := FileRubricByVerse(g, rubrics[j], siglum, place);
      AssignedNext(data, rubrics, j, VerseFiler(siglum, place), g, filed);
      g := filed.value;
    }
    assert rubrics[..|rubrics|] == rubrics;
    r := Ok(g);
  }

  /** The filing loops of the verse report. */
  method FileByVerse(docs: seq<Node>, place: string) returns (r: Result<Grouping>)
    ensures r == Assigned(Empty, VerseEntries(docs, place))
  {
    var g := Empty;
    for i := 0 to |docs|
      invariant Collect(docs[..i], DocVerseFiler(place)).Ok?
      invariant g == PutAll(Empty, Collect(docs[..i], DocVerseFiler(place)).value)
    {
      var doc := docs[i];
      var siglum := GetSiglum(doc);
      var filed: Result<Grouping>;
      if siglum.Err? {
        filed := Err(siglum.error);
      } else {
        filed := FileRubricsByVerse(g, doc, siglum.value, place);
      }
      AssignedNext(Empty, docs, i, DocVerseFiler(place), g, filed);
      if filed.Err? {
        return filed;
      }
      g := filed.value;
    }
    assert docs[..|docs|] == docs;
    r := Ok(g);
  }

  // ---------------------------------------------------------------------------
  // What gets filed

  /** Every rubric the date report files is kept by the place filter, and a
      document's rubrics are filed under that document's siglum. */
  lemma DocDatesKept(doc: Node, place: string, table: DateTable)
    ensures var r := DocDateEntries(doc, place, table);
            r.Ok? ==> forall e :: e in r.value ==> Kept(e.rubric, place) && Ok(e.siglum) == GetSiglum(doc)
  {
    var s := GetSiglum(doc);
    if s.Ok? {
      var rubrics := Rubrics(doc);
      var p := (e: Entry) => Kept(e.rubric, place) && Ok(e.siglum) == s;
      forall i | 0 <= i < |rubrics| && RubricDateEntries(rubrics[i], s.value, place, table).Ok?
        ensures forall e :: e in RubricDateEntries(rubrics[i], s.value, place, table).value ==> p(e)
      {
        if Kept(rubrics[i], place) {
          DatesFiled(Dates(rubrics[i]), rubrics[i], s.value, table);
        }
      }
      CollectAll(rubrics, RubricDateFiler(s.value, place, table), p);
    }
  }

  /** No rubric the place filter drops reaches the date report. */
  lemma DateEntriesKept(docs: seq<Node>, place: string, table: DateTable)
    ensures var r := DateEntries(docs, place, table);
            r.Ok? ==> forall e :: e in r.value ==> Kept(e.rubric, place)
  {
    forall i | 0 <= i < |docs| && DocDateEntries(docs[i], place, table).Ok?
      ensures forall e :: e in DocDateEntries(docs[i], place, table).value ==> Kept(e.rubric, place)
    {
      DocDatesKept(docs[i], place, table);
    }
    CollectAll(docs, DocDateFiler(place, table), (e: Entry) => Kept(e.rubric, place));
  }

  /** Every rubric the verse report files is kept by the place filter, is
      filed under its own `corresp`, and a document's rubrics under that
      document's siglum. */
  lemma DocVersesKept(doc: Node, place: string)
    ensures var r := DocVerseEntries(doc, place);
            r.Ok? ==> forall e :: e in r.value ==>
                        Kept(e.rubric, place) && e.key == AttrOr(Some(e.rubric), "corresp") && Ok(e.siglum) == GetSiglum(doc)
  {
    var s := GetSiglum(doc);
    if s.Ok? {
      var p := (e: Entry) => Kept(e.rubric, place) && e.key == AttrOr(Some(e.rubric), "corresp") && Ok(e.siglum) == s;
      CollectAll(Rubrics(doc), VerseFiler(s.value, place), p);
    }
  }

  lemma VerseEntriesKept(docs: seq<Node>, place: string)
    ensures var r := VerseEntries(docs, place);
            r.Ok? ==> forall e :: e in r.value ==> Kept(e.rubric, place) && e.key == AttrOr(Some(e.rubric), "corresp")
  {
    forall i | 0 <= i < |docs| && DocVerseEntries(docs[i], place).Ok?
      ensures forall e :: e in DocVerseEntries(docs[i], place).value ==> Kept(e.rubric, place) && e.key == AttrOr(Some(e.rubric), "corresp")
    {
      DocVersesKept(docs[i], place);
    }
    CollectAll(docs, DocVerseFiler(place), (e: Entry) => Kept(e.rubric, place) && e.key == AttrOr(Some(e.rubric), "corresp"));
  }

  /** The verse report can only fail on a siglum, which is computed first. */
  lemma VerseEntriesOk(docs: seq<Node>, place: string)
    requires Sigla(docs).Ok?
    ensures VerseEntries(docs, place).Ok?
  {
    MapAllOk(docs, GetSiglum);
    forall i | 0 <= i < |docs| ensures DocVerseEntries(docs[i], place).Ok? {
      var s := GetSiglum(docs[i]).value;
      CollectOk(Rubrics(docs[i]), VerseFiler(s, place));
    }
    CollectOk(docs, DocVerseFiler(place));
  }

  /** In the verse report each list holds at most one rubric: the last one
      filed under its verse and siglum. */
  lemma VerseCellsSingle(es: seq<Entry>, key: string, siglum: string)
    ensures var sel := Select(es, key, siglum);
            Lookup(PutAll(Empty, es), key, siglum) == if sel == [] then [] else [sel[|sel| - 1]]
  {
    PutAllLookup(Empty, es, key, siglum);
  }

  // ---------------------------------------------------------------------------
  // Ranks and notices

  /** The position of the last occurrence of `x` in `s`, or -1. */
  function LastIndex(s: seq<string>, x: string): (r: int)
    ensures -1 <= r < |s|
    ensures r == -1 <==> x !in s
    ensures r >= 0 ==> s[r] == x && forall j :: r < j < |s| ==> s[j] != x
  {
    if s == [] then -1
    else if s[|s| - 1] == x then |s| - 1
    else
      assert s == s[..|s| - 1] + [s[|s| - 1]];
      LastIndex(s[..|s| - 1], x)
  }

  /** The position of the first occurrence of `x` in `s`, or -1. */
  function FirstIndex(s: seq<string>, x: string): (r: int)
    ensures -1 <= r < |s|
    ensures r == -1 <==> x !in s
    ensures r >= 0 ==> s[r] == x && forall j :: 0 <= j < r ==> s[j] != x
  {
    if s == [] then -1
    else if s[0] == x then 0
    else
      var r := FirstIndex(s[1..], x);
      assert s == [s[0]] + s[1..];
      if r == -1 then -1 else r + 1
  }

  /** The date report's sort key: the last position of the name among the
      table's names (a dictionary built from them keeps the last), -1 for a
      name the table does not give. */
  function DateRank(labels: seq<string>): string -> int {
    k => LastIndex(labels, k)
  }

  function NotFound(key: string): string {
    "Date '" + key + "' not found"
  }

  /** The notices the date report's sort key emits: one for each key without
      a name in the table, in key order. */
  function Notices(keys: seq<string>, labels: seq<string>): (r: seq<string>)
    ensures |r| <= |keys|
  {
    if keys == [] then []
    else
      var init, k := keys[..|keys| - 1], keys[|keys| - 1];
      assert keys == init + [k];
      Notices(init, labels) + (if k !in labels then [NotFound(k)] else [])
  }

  /** There is a notice for every key without a name, and each notice is
      about such a key. */
  lemma {:induction false} NoticesMembers(keys: seq<string>, labels: seq<string>)
    ensures forall k :: k in keys && k !in labels ==> NotFound(k) in Notices(keys, labels)
    ensures forall m :: m in Notices(keys, labels) ==>
              exists k :: k in keys && k !in labels && m == NotFound(k)
  {
    if keys != [] {
      var init, k := keys[..|keys| - 1], keys[|keys| - 1];
      assert keys == init + [k];
      NoticesMembers(init, labels);
    }
  }

  /** The notices of two runs of keys are those of the first run followed by
      those of the second: no notice is repeated, dropped or reordered. */
  lemma {:induction false} NoticesConcat(a: seq<string>, b: seq<string>, labels: seq<string>)
    ensures Notices(a + b, labels) == Notices(a, labels) + Notices(b, labels)
    decreases |b|
  {
    if b == [] {
      assert a + b == a;
    } else {
      var init, k := b[..|b| - 1], b[|b| - 1];
      var last := if k !in labels then [NotFound(k)] else [];
      assert (a + b)[..|a + b| - 1] == a + init;
      assert Notices(a + b, labels) == Notices(a + init, labels) + last;
      assert Notices(b, labels) == Notices(init, labels) + last;
      NoticesConcat(a, init, labels);
    }
  }

  /** A single key gives one notice when the table has no name for it and
      none otherwise. */
  lemma NoticesSingle(k: string, labels: seq<string>)
    ensures Notices([k], labels) == if k !in labels then [NotFound(k)] else []
  {
    assert [k][..0] == [];
  }

  /** `re.sub(r"b$", "", verse)`: a `b` at the very end, or just before a
      final newline, is removed. */
  function StripFinalB(v: string): (r: string)
    ensures |v| > 0 && v[|v| - 1] == 'b' ==> v == r + "b"
    ensures |v| > 1 && v[|v| - 2..] == "b\n" ==> |r| == |v| - 1 && v == r[..|r| - 1] + "b\n" && r[|r| - 1] == '\n'
    ensures !(|v| > 0 && v[|v| - 1] == 'b') && !(|v| > 1 && v[|v| - 2..] == "b\n") ==> r == v
  {
    if |v| > 0 && v[|v| - 1] == 'b' then v[..|v| - 1]
    else if |v| > 1 && v[|v| - 2] == 'b' && v[|v| - 1] == '\n' then v[..|v| - 2] + "\n"
    else v
  }

  /** The verse report's sort key: the first position of the verse, without
      a final `b`, in the canonical verse list, -1 when it is not there. */
  function VerseRank(verses: seq<string>): string -> int {
    k => FirstIndex(verses, StripFinalB(k))
  }

  /** With either sort key the unranked keys come before every ranked one. */
  lemma UnrankedFirstByDate(g: Grouping, labels: seq<string>, i: nat, j: nat)
    requires i < j < |Reorder(g, DateRank(labels)).keys|
    requires Reorder(g, DateRank(labels)).keys[j] !in labels
    ensures Reorder(g, DateRank(labels)).keys[i] !in labels
  {
    var rank, keys := DateRank(labels), Reorder(g, DateRank(labels)).keys;
    assert forall k :: rank(k) >= -1;
    assert rank(keys[j]) == -1;
    UnrankedFirst(g, rank, i, j);
    assert rank(keys[i]) == -1;
  }

  lemma UnrankedFirstByVerse(g: Grouping, verses: seq<string>, i: nat, j: nat)
    requires i < j < |Reorder(g, VerseRank(verses)).keys|
    requires StripFinalB(Reorder(g, VerseRank(verses)).keys[j]) !in verses
    ensures StripFinalB(Reorder(g, VerseRank(verses)).keys[i]) !in verses
  {
    var rank, keys := VerseRank(verses), Reorder(g, VerseRank(verses)).keys;
    assert forall k :: rank(k) >= -1;
    assert rank(keys[j]) == -1;
    UnrankedFirst(g, rank, i, j);
    assert rank(keys[i]) == -1;
  }

  /** Keys "c", "a", "x" against the verse list "a", "b", "c": the key the
      list lacks comes first, then the others in list order. */
  lemma VerseOrderExample(cells: map<string, map<string, seq<Node>>>)
    ensures Reorder(Grouping(["c", "a", "x"], cells), VerseRank(["a", "b", "c"])).keys == ["x", "a", "c"]
  {
    ExampleRanks();
    ReorderDescending(Grouping(["c", "a", "x"], cells), VerseRank(["a", "b", "c"]));
  }

  lemma ExampleRanks()
    ensures VerseRank(["a", "b", "c"])("c") == 2
    ensures VerseRank(["a", "b", "c"])("a") == 0
    ensures VerseRank(["a", "b", "c"])("x") == -1
  {
    assert StripFinalB("c") == "c" && StripFinalB("a") == "a" && StripFinalB("x") == "x";
    ExampleIndices();
  }

  lemma ExampleIndices()
    ensures FirstIndex(["a", "b", "c"], "c") == 2
    ensures FirstIndex(["a", "b", "c"], "a") == 0
    ensures FirstIndex(["a", "b", "c"], "x") == -1
  {
    var verses := ["a", "b", "c"];
    assert verses[1..] == ["b", "c"] && verses[1..][1..] == ["c"];
    assert "x" !in verses;
  }


  // ---------------------------------------------------------------------------
  // The reports

  /** A report page: the exported table and the notices printed on the way. */
  datatype Report = Report(table: Table, notices: seq<string>)

  /** What the date report reads from the first document and files: the
      table of date names and the grouping. */
  function DateData(docs: seq<Node>, place: string): (r: Result<(DateTable, Grouping)>)
    requires docs != []
    ensures r.Ok? ==> ValidTable(r.value.0) && Valid(r.value.1)
  {
    var listEvent :- FindElement(Find(docs[0], StandOffStep), ListEventStep);
    var events :- FindElements(listEvent, EventStep);
    var table :- DateTableOf(events);
    DateTableIds(events);
    var data :- Appended(Empty, DateEntries(docs, place, table));
    Ok((table, data))
  }

  /** `by_date`: the sigla first, then the date table of the first document,
      then the filing; the keys sorted by their date's position and the
      grouping exported under "Date", with every field shown but the
      facsimile link only when asked. */
  method ByDate(docs: seq<Node>, place: string, displayFacs: bool, render: Fields -> string) returns (r: Result<Report>)
    ensures Sigla(docs).Err? ==> r == Err(Sigla(docs).error)
    ensures Sigla(docs).Ok? && docs == [] ==> r == Err(IndexOutOfRange)
    ensures Sigla(docs).Ok? && docs != [] && DateData(docs, place).Err? ==> r == Err(DateData(docs, place).error)
    ensures Sigla(docs).Ok? && docs != [] && DateData(docs, place).Ok? ==>
              var table := DateData(docs, place).value.0;
              var data := DateData(docs, place).value.1;
              && r.Ok?
              && r.value.notices == Notices(data.keys, Labels(table))
              && Exports(r.value.table, Reorder(data, DateRank(Labels(table))), "Date", Sigla(docs).value,
                         Display(true, true, displayFacs), render)
  {
    var sigla := Sigla(docs);
    if sigla.Err? {
      return Err(sigla.error);
    }
    if docs == [] {
      return Err(IndexOutOfRange);
    }
    var standOff := FindElement(Some(docs[0]), StandOffStep).value;
    var listEvent := FindElement(standOff, ListEventStep);
    if listEvent.Err? {
      return Err(listEvent.error);
    }
    var events := FindElements(listEvent.value, EventStep);
    if events.Err? {
      return Err(events.error);
    }
    var table := BuildDateTable(events.value);
    if table.Err? {
      return Err(table.error);
    }
    DateTableIds(events.value);
    var data := FileByDate(docs, place, table.value);
    if data.Err? {
      return Err(data.error);
    }
    var labels := Labels(table.value);
    var notices := Notices(data.value.keys, labels);
    var sorted := Reorder(data.value, DateRank(labels));
    var t := ExportData(sorted, "Date", sigla.value, Display(true, true, displayFacs), render);
    r := Ok(Report(t, notices));
  }

  /** `by_verse`: the sigla first, then the filing; the keys sorted by their
      verse's position in `verses` and the grouping exported under "Verse"
      without the verse field. It never prints a notice. */
  method ByVerse(verses: seq<string>, docs: seq<Node>, place: string, displayFacs: bool, render: Fields -> string)
    returns (r: Result<Table>)
    ensures Sigla(docs).Err? ==> r == Err(Sigla(docs).error)
    ensures Sigla(docs).Ok? ==>
              && VerseEntries(docs, place).Ok?
              && r.Ok?
              && Exports(r.value, Reorder(PutAll(Empty, VerseEntries(docs, place).value), VerseRank(verses)), "Verse",
                         Sigla(docs).value, Display(false, true, displayFacs), render)
  {
    var sigla := Sigla(docs);
    if sigla.Err? {
      return Err(sigla.error);
    }
    VerseEntriesOk(docs, place);
    var data := FileByVerse(docs, place);
    var sorted := Reorder(data.value, VerseRank(verses));
    var t := ExportData(sorted, "Verse", sigla.value, Display(false, true, displayFacs), render);
    r := Ok(t);
  }
}
