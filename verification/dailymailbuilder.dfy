/** `DailyMailBuilder`: fills the mail template by literal placeholder
    replacement, and `ChartData.BuildFunction` writes one Google Charts
    drawing function per stock. */
module DailyMailBuilder {
  import opened Wrappers
  import opened Seqs
  import opened Text
  import opened Decimal
  import opened Dates
  import opened Subscribers

  /** `ChartData`: a title and two date-keyed price maps (closing prices and
      predicted prices). */
  datatype ChartData = ChartData(title: string, closingPrices: map<Date, int>, predictPrices: map<Date, int>)

  /** The `ChartData` constructor: each argument is checked for null, in
      order, and the first null one is reported. */
  function NewChartData(title: Nullable<string>, closingPrices: Nullable<map<Date, int>>,
                        predictPrices: Nullable<map<Date, int>>): (r: Outcome<ChartData>)
    ensures r.Returned? <==> title.NonNull? && closingPrices.NonNull? && predictPrices.NonNull?
    ensures r.Returned? ==> r.value == ChartData(title.value, closingPrices.value, predictPrices.value)
    ensures title.Null? ==> r == Threw(ArgumentNull("title"))
    ensures title.NonNull? && closingPrices.Null? ==> r == Threw(ArgumentNull("closingPrices"))
    ensures title.NonNull? && closingPrices.NonNull? && predictPrices.Null? ==> r == Threw(ArgumentNull("predictPrices"))
  {
    if title.Null? then Threw(ArgumentNull("title"))
    else if closingPrices.Null? then Threw(ArgumentNull("closingPrices"))
    else if predictPrices.Null? then Threw(ArgumentNull("predictPrices"))
    else Returned(ChartData(title.value, closingPrices.value, predictPrices.value))
  }

  const DataTableHeader: string :=
    "() { var data = new google.visualization.DataTable(); data.addColumn('date', 'X'); "
    + "data.addColumn('number', '종가'); data.addColumn('number', '예측가'); data.addRows("
  const OptionsHead: string := "); var options = { title: '"
  const OptionsMiddle: string :=
    "', height: 300, hAxis: { title: '날짜', format: 'yy/M/d', gridlines: { count: 15 } }, "
    + "vAxis: { title: '종가 (원)' } }; var chart = new google.visualization.LineChart(document.getElementById('"
  const ChartTail: string := "')); chart.draw(data, options); } "

  /** The dates that get a row: the union of both maps' keys, ascending. */
  function RowDates(chart: ChartData): (r: seq<Date>)
    ensures StrictlyAscending(r)
    ensures forall d :: d in r <==> d in chart.closingPrices || d in chart.predictPrices
    ensures |r| == |chart.closingPrices.Keys + chart.predictPrices.Keys|
  {
    Sorted(chart.closingPrices.Keys + chart.predictPrices.Keys)
  }

  /** The price for `d`, or "null" when the map has no entry for it. */
  function Cell(prices: map<Date, int>, d: Date): string {
    if d in prices then IntToString(prices[d]) else "null"
  }

  /** One data row; JavaScript months count from 0, hence `Month - 1`. */
  function Row(chart: ChartData, d: Date): string {
    "[new Date(" + IntToString(d.year) + ", " + IntToString(d.month - 1) + ", " + IntToString(d.day) + "), "
    + Cell(chart.closingPrices, d) + ", " + Cell(chart.predictPrices, d) + "], "
  }

  function RowsText(chart: ChartData): string {
    var dates := RowDates(chart);
    Flatten(seq(|dates|, i requires 0 <= i < |dates| => Row(chart, dates[i])))
  }

  function FunctionPrefix(functionName: string): string {
    "function " + functionName + DataTableHeader + "[ "
  }

  /** `BuildFunction(functionName, chartElementId)`: the function header, the
      rows, then the options with the title and the target element id. */
  function BuildFunction(chart: ChartData, functionName: string, chartElementId: string): string {
    FunctionPrefix(functionName) + RowsText(chart) + (" ]" + OptionsHead)
    + (chart.title + OptionsMiddle + chartElementId + ChartTail)
  }

  /** The script starts with `function <name>`, carries the data rows right
      after the fixed header, and ends with the title and the element id. */
  lemma BuildFunctionLayout(chart: ChartData, functionName: string, chartElementId: string)
    ensures StartsWith(BuildFunction(chart, functionName, chartElementId), "function " + functionName)
    ensures var r, p, rows := BuildFunction(chart, functionName, chartElementId), |FunctionPrefix(functionName)|, RowsText(chart);
      |r| >= p + |rows| && r[p..p + |rows|] == rows
    ensures var r, t := BuildFunction(chart, functionName, chartElementId), chart.title + OptionsMiddle + chartElementId + ChartTail;
      |r| >= |t| && r[|r| - |t|..] == t
  {
    var head, rows := FunctionPrefix(functionName), RowsText(chart);
    var tail := chart.title + OptionsMiddle + chartElementId + ChartTail;
    HeadStartsWithName(functionName);
    Layout("function " + functionName, head, rows, " ]" + OptionsHead, tail);
  }

  /** Where the header, the rows and the tail sit in the assembled script. */
  lemma Layout(name: string, head: string, rows: string, mid: string, tail: string)
    requires StartsWith(head, name)
    ensures var r := head + rows + mid + tail;
      && StartsWith(r, name)
      && |r| >= |head| + |rows| && r[|head|..|head| + |rows|] == rows
      && |r| >= |tail| && r[|r| - |tail|..] == tail
  {
    var r := head + rows + mid + tail;
    ConcatParts(head, rows, mid, tail);
    PrefixOfPrefix(name, head, r);
  }

  lemma HeadStartsWithName(functionName: string)
    ensures StartsWith(FunctionPrefix(functionName), "function " + functionName)
  {
    var n := "function " + functionName;
    assert FunctionPrefix(functionName) == n + (DataTableHeader + "[ ");
  }

  lemma PrefixOfPrefix(a: string, b: string, c: string)
    requires StartsWith(b, a) && StartsWith(c, b)
    ensures StartsWith(c, a)
  {
    assert c[..|a|] == c[..|b|][..|a|];
  }

  /** Where the parts of a four-part concatenation sit. */
  lemma ConcatParts(a: string, b: string, c: string, d: string)
    ensures (a + b + c + d)[..|a|] == a
    ensures (a + b + c + d)[|a|..|a| + |b|] == b
    ensures (a + b + c + d)[|a + b + c|..] == d
  {
  }

  /** A template placeholder: the name between two percent signs. */
  function Placeholder(name: string): string {
    "%" + name + "%"
  }

  function ChartElement(i: nat): string {
    "<tr><div id = \"chart" + IntToString(i) + "\" style = \"" + "border: 1px solid #ccc;" + "\"></div></tr> "
  }

  function Callback(i: nat): string {
    "google.charts.setOnLoadCallback(drawChart" + IntToString(i) + "); "
  }

  /** The three generated sections, concatenated over the charts in index
      order; chart `i` is drawn by `drawChart{i}` into element `chart{i}`. */
  function ChartElements(n: nat): string {
    Flatten(seq(n, i requires 0 <= i < n => ChartElement(i)))
  }

  function Callbacks(n: nat): string {
    Flatten(seq(n, i requires 0 <= i < n => Callback(i)))
  }

  function Functions(charts: seq<ChartData>): string {
    Flatten(seq(|charts|, i requires 0 <= i < |charts| => DrawFunction(charts[i], i)))
  }

  /** The function drawing chart `i`, into element `chart{i}`. */
  function DrawFunction(chart: ChartData, i: nat): string {
    BuildFunction(chart, "drawChart" + IntToString(i), "chart" + IntToString(i))
  }

  /** One more chart adds its element, callback and function at the end. */
  lemma ElementsSnoc(n: nat)
    ensures ChartElements(n + 1) == ChartElements(n) + ChartElement(n)
  {
    var es := seq(n, i requires 0 <= i < n => ChartElement(i));
    assert seq(n + 1, i requires 0 <= i < n + 1 => ChartElement(i)) == es + [ChartElement(n)];
    FlattenSnoc(es, ChartElement(n));
  }

  lemma CallbacksSnoc(n: nat)
    ensures Callbacks(n + 1) == Callbacks(n) + Callback(n)
  {
    var cs := seq(n, i requires 0 <= i < n => Callback(i));
    assert seq(n + 1, i requires 0 <= i < n + 1 => Callback(i)) == cs + [Callback(n)];
    FlattenSnoc(cs, Callback(n));
  }

  lemma FunctionsSnoc(charts: seq<ChartData>, chart: ChartData)
    ensures Functions(charts + [chart]) == Functions(charts) + DrawFunction(chart, |charts|)
  {
    var n := |charts|;
    var all := charts + [chart];
    var fs := seq(n, i requires 0 <= i < n => DrawFunction(charts[i], i));
    var last := DrawFunction(chart, n);
    var longer := seq(n + 1, i requires 0 <= i < n + 1 => DrawFunction(all[i], i));
    forall i | 0 <= i < n + 1 ensures longer[i] == (fs + [last])[i] {
      if i < n {
        assert all[i] == charts[i];
      }
    }
    assert longer == fs + [last];
    FlattenSnoc(fs, last);
  }

  lemma FunctionsStep(charts: seq<ChartData>, i: nat)
    requires i < |charts|
    ensures Functions(charts[..i + 1]) == Functions(charts[..i]) + DrawFunction(charts[i], i)
  {
    var done, next := charts[..i], charts[..i + 1];
    assert next == done + [charts[i]];
    FunctionsSnoc(done, charts[i]);
  }

  /** The loop of `Build`: three builders, appended to once per chart in
      index order. */
  method AppendSections(charts: seq<ChartData>) returns (elements: string, callbacks: string, functions: string)
    ensures elements == ChartElements(|charts|)
    ensures callbacks == Callbacks(|charts|)
    ensures functions == Functions(charts)
  {
    elements, callbacks, functions := "", "", "";
    var i := 0;
    while i < |charts|
      invariant i <= |charts|
      invariant elements == ChartElements(i)
      invariant callbacks == Callbacks(i)
      invariant functions == Functions(charts[..i])
    {
      SectionsStep(charts, i, elements, callbacks, functions);
      elements := elements + ChartElement(i);
      callbacks := callbacks + Callback(i);
      functions := functions + DrawFunction(charts[i], i);
      i := i + 1;
    }
    assert charts[..i] == charts;
  }

  /** One more chart extends each of the three sections by its own piece. */
  lemma SectionsStep(charts: seq<ChartData>, i: nat, elements: string, callbacks: string, functions: string)
    requires i < |charts|
    requires elements == ChartElements(i) && callbacks == Callbacks(i) && functions == Functions(charts[..i])
    ensures elements + ChartElement(i) == ChartElements(i + 1)
    ensures callbacks + Callback(i) == Callbacks(i + 1)
    ensures functions + DrawFunction(charts[i], i) == Functions(charts[..i + 1])
  {
    ElementsSnoc(i);
    CallbacksSnoc(i);
    FunctionsStep(charts, i);
  }

  /** `DailyMailBuilder`: the template, the `Receiver` property (null until
      set) and the `ChartDatas` list. */
  datatype MailBuilder = MailBuilder(template: string, receiver: Nullable<Subscriber>, chartDatas: seq<ChartData>)

  /** `Build`: replaces every occurrence of `%email%`, `%token%`, `%chart%`,
      `%callback%` and `%function%`, in that order, starting from the template.
      The token comes from the receiver's `Token`, whose definition is not
      part of this model; an unset receiver is dereferenced and throws. */
  function Build(b: MailBuilder, tokenOf: Subscriber -> string): (r: Outcome<string>)
    ensures b.receiver.Null? <==> r == Threw(NullReference)
  {
    if b.receiver.Null? then Threw(NullReference)
    else
      var receiver := b.receiver.value;
      var contents := ReplaceAll(b.template, Placeholder("email"), receiver.email);
      var contents := ReplaceAll(contents, Placeholder("token"), tokenOf(receiver));
      var n := |b.chartDatas|;
      var contents := ReplaceAll(contents, Placeholder("chart"), ChartElements(n));
      var contents := ReplaceAll(contents, Placeholder("callback"), Callbacks(n));
      var contents := ReplaceAll(contents, Placeholder("function"), Functions(b.chartDatas));
      Returned(contents)
  }

  /** The names `Build` replaces, in the order it replaces them. */
  const PlaceholderNames: seq<string> := ["email", "token", "chart", "callback", "function"]

  /** The placeholder names hold no percent sign and are pairwise different. */
  lemma NamesArePlain()
    ensures '%' !in "email" && '%' !in "token" && '%' !in "chart"
    ensures '%' !in "callback" && '%' !in "function"
  {
    assert "email" == ['e', 'm', 'a', 'i', 'l'];
    assert "token" == ['t', 'o', 'k', 'e', 'n'];
    assert "chart" == ['c', 'h', 'a', 'r', 't'];
    assert "callback" == ['c', 'a', 'l', 'l', 'b', 'a', 'c', 'k'];
    assert "function" == ['f', 'u', 'n', 'c', 't', 'i', 'o', 'n'];
  }

  lemma NamesDiffer()
    ensures "token" != "email"
    ensures "chart" != "email" && "chart" != "token"
    ensures "callback" != "email" && "callback" != "token" && "callback" != "chart"
    ensures "function" != "email" && "function" != "token" && "function" != "chart" && "function" != "callback"
  {
    assert "email"[0] == 'e' && "token"[0] == 't' && "chart"[0] == 'c';
    assert "callback"[0] == 'c' && "function"[0] == 'f';
    assert "chart"[1] == 'h' && "callback"[1] == 'a';
  }

  lemma KeepPlain(s: string, m: string, v: string)
    requires '%' !in s
    ensures ReplaceAll(s, Placeholder(m), v) == s
  {
    AbsentWithoutFirstChar(s, Placeholder(m));
    ReplaceAbsent(s, Placeholder(m), v);
  }

  lemma PlainConcat(a: string, v: string, c: string)
    requires '%' !in a && '%' !in v && '%' !in c
    ensures '%' !in a + v + c
  {
  }

  lemma ElementIsPlain(k: nat)
    ensures '%' !in ChartElement(k)
  {
    var digits := IntToString(k);
    assert IsDigits(digits);
    PlainConcat("<tr><div id = \"chart", digits, "\" style = \"");
    PlainConcat("<tr><div id = \"chart" + digits + "\" style = \"", "border: 1px solid #ccc;", "\"></div></tr> ");
  }

  lemma CallbackIsPlain(k: nat)
    ensures '%' !in Callback(k)
  {
    var digits := IntToString(k);
    assert IsDigits(digits);
    PlainConcat("google.charts.setOnLoadCallback(drawChart", digits, "); ");
  }

  /** The generated chart elements and callbacks hold no percent sign, so
      the replacements after them leave them alone. */
  lemma SectionsArePlain(n: nat)
    ensures '%' !in ChartElements(n) && '%' !in Callbacks(n)
  {
    var es := seq(n, i requires 0 <= i < n => ChartElement(i));
    var cs := seq(n, i requires 0 <= i < n => Callback(i));
    forall k | 0 <= k < n ensures '%' !in es[k] && '%' !in cs[k] {
      ElementIsPlain(k);
      CallbackIsPlain(k);
    }
    FlattenAvoids(es, '%');
    FlattenAvoids(cs, '%');
  }

  /** With a receiver set, a template that holds no percent sign comes back unchanged. */
  lemma BuildWithoutPlaceholders(b: MailBuilder, tokenOf: Subscriber -> string)
    requires b.receiver.NonNull? && '%' !in b.template
    ensures Build(b, tokenOf) == Returned(b.template)
  {
    var receiver := b.receiver.value;
    var n := |b.chartDatas|;
    KeepPlain(b.template, "email", receiver.email);
    KeepPlain(b.template, "token", tokenOf(receiver));
    KeepPlain(b.template, "chart", ChartElements(n));
    KeepPlain(b.template, "callback", Callbacks(n));
    KeepPlain(b.template, "function", Functions(b.chartDatas));
  }

  // `Build` on a whole template.

  /** A placeholder of the template and the literal text after it, up to the
      next placeholder. A template is a head followed by such holes. */
  datatype Hole = Hole(name: string, after: string)

  /** The template `head + %n1% + a1 + ... + %nk% + ak`. */
  function TemplateText(head: string, holes: seq<Hole>): string {
    head + HolesText(holes)
  }

  function HolesText(holes: seq<Hole>): string
    decreases |holes|
  {
    if |holes| == 0 then [] else Placeholder(holes[0].name) + holes[0].after + HolesText(holes[1..])
  }

  /** The position of `name` in `PlaceholderNames`; 5 for a name `Build` does not replace. */
  function NameIndex(name: string): (i: nat)
    ensures i <= 5
    ensures i < 5 ==> PlaceholderNames[i] == name
  {
    if name == "email" then 0
    else if name == "token" then 1
    else if name == "chart" then 2
    else if name == "callback" then 3
    else if name == "function" then 4
    else 5
  }

  /** The five fillings, in the order of `PlaceholderNames`: the address, the
      token, and the three generated sections. */
  function Fillings(receiver: Subscriber, tokenOf: Subscriber -> string, charts: seq<ChartData>): (r: seq<string>)
    ensures |r| == 5
  {
    [receiver.email, tokenOf(receiver), ChartElements(|charts|), Callbacks(|charts|), Functions(charts)]
  }

  /** What a placeholder finally reads: its filling, or the placeholder itself
      when `Build` does not know the name. */
  function FillOf(fills: seq<string>, name: string): string
    requires |fills| == 5
  {
    var i := NameIndex(name);
    if i < 5 then fills[i] else Placeholder(name)
  }

  /** The reference result: every placeholder of the template replaced by
      what it finally reads, the literal text kept. */
  function FilledText(head: string, holes: seq<Hole>, fills: seq<string>): string
    requires |fills| == 5
  {
    head + FilledHoles(holes, fills)
  }

  function FilledHoles(holes: seq<Hole>, fills: seq<string>): string
    requires |fills| == 5
    decreases |holes|
  {
    if |holes| == 0 then [] else FillOf(fills, holes[0].name) + holes[0].after + FilledHoles(holes[1..], fills)
  }

  /** A word of lower-case ASCII letters, as every placeholder name is; the
      empty string is one too. */
  predicate LowerWord(s: string) {
    forall i | 0 <= i < |s| :: 'a' <= s[i] <= 'z'
  }

  /** The names and the literal text hold no '%', and no literal between two
      placeholders is empty or a lower-case word: otherwise the closing '%' of
      one placeholder, that word and the opening '%' of the next can read as a
      third placeholder (see `NameBetweenPlaceholdersCaptured`), and two
      adjacent placeholders `%a%%b%` are excluded as well. */
  predicate PlainHoles(holes: seq<Hole>) {
    && (forall k | 0 <= k < |holes| :: '%' !in holes[k].name && '%' !in holes[k].after)
    && (forall k | 0 <= k < |holes| - 1 :: !LowerWord(holes[k].after))
  }

  lemma PlainHolesTail(holes: seq<Hole>)
    requires |holes| > 0 && PlainHoles(holes)
    ensures '%' !in holes[0].name && '%' !in holes[0].after
    ensures |holes| > 1 ==> !LowerWord(holes[0].after)
    ensures PlainHoles(holes[1..])
  {
    var rest := holes[1..];
    assert forall k | 0 <= k < |rest| :: rest[k] == holes[k + 1];
  }

  /** What the placeholder `name` reads after the first `done` steps of `Build`. */
  function StageSlot(fills: seq<string>, done: nat, name: string): string
    requires |fills| == 5 && done <= 5
  {
    var i := NameIndex(name);
    if i < done then fills[i] else Placeholder(name)
  }

  /** The holes after the first `done` steps of `Build`. */
  function Stage(holes: seq<Hole>, fills: seq<string>, done: nat): string
    requires |fills| == 5 && done <= 5
    decreases |holes|
  {
    if |holes| == 0 then [] else StageSlot(fills, done, holes[0].name) + holes[0].after + Stage(holes[1..], fills, done)
  }

  /** Before any step the holes are the template's; after all five, the filled text. */
  lemma {:induction false} StageEnds(holes: seq<Hole>, fills: seq<string>)
    requires |fills| == 5
    ensures Stage(holes, fills, 0) == HolesText(holes)
    ensures Stage(holes, fills, 5) == FilledHoles(holes, fills)
    decreases |holes|
  {
    if |holes| > 0 {
      StageEnds(holes[1..], fills);
    }
  }

  /** Each of the five names is a non-empty lower-case word at its own index. */
  lemma NameFacts(done: nat)
    requires done < 5
    ensures var m := PlaceholderNames[done]; |m| > 0 && LowerWord(m) && '%' !in m && NameIndex(m) == done
  {
    NamesArePlain();
    NamesDiffer();
    assert "email" == ['e', 'm', 'a', 'i', 'l'];
    assert "token" == ['t', 'o', 'k', 'e', 'n'];
    assert "chart" == ['c', 'h', 'a', 'r', 't'];
    assert "callback" == ['c', 'a', 'l', 'l', 'b', 'a', 'c', 'k'];
    assert "function" == ['f', 'u', 'n', 'c', 't', 'i', 'o', 'n'];
  }

  /** `c + x` starts with `c + p` only if `x` starts with `p`. */
  lemma StartsWithTail(c: char, x: string, p: string)
    ensures StartsWith([c] + x, [c] + p) ==> StartsWith(x, p)
  {
    if StartsWith([c] + x, [c] + p) {
      assert x[..|p|] == ([c] + x)[..|p| + 1][1..];
    }
  }

  /** The placeholder at the front is replaced, and the scan goes on after it. */
  lemma ReplaceHit(m: string, v: string, x: string)
    ensures ReplaceAll(Placeholder(m) + x, Placeholder(m), v) == v + ReplaceAll(x, Placeholder(m), v)
  {
    var p := Placeholder(m);
    assert StartsWith(p + x, p) && (p + x)[|p|..] == x;
  }

  /** Text that starts with an unknown or not yet replaced placeholder, and
      does not go on with `m` followed by '%', keeps that placeholder. */
  lemma PlaceholderPass(n: string, m: string, x: string, v: string)
    requires '%' !in n && '%' !in m && n != m
    requires !StartsWith(x, m + "%")
    ensures ReplaceAll(Placeholder(n) + x, Placeholder(m), v) == Placeholder(n) + ReplaceAll(x, Placeholder(m), v)
  {
    var p, q := Placeholder(m), Placeholder(n);
    var y := ['%'] + x;
    PassRegroup(n, x, y, ReplaceAll(x, p, v));
    SkipOtherName(n, m, y, v);
    ReplaceSkipsPlain(n, p, v, y);
    MarkBeforeOtherText(x, m, v);
  }

  lemma PassRegroup(n: string, x: string, y: string, r: string)
    requires y == ['%'] + x
    ensures Placeholder(n) + x == "%" + n + y
    ensures "%" + (n + (['%'] + r)) == Placeholder(n) + r
  {
  }

  /** A mark that does not open `%m%` is kept. */
  lemma MarkBeforeOtherText(x: string, m: string, v: string)
    requires !StartsWith(x, m + "%")
    ensures ReplaceAll(['%'] + x, Placeholder(m), v) == ['%'] + ReplaceAll(x, Placeholder(m), v)
  {
    var p, y := Placeholder(m), ['%'] + x;
    assert p == ['%'] + (m + "%");
    StartsWithTail('%', x, m + "%");
    assert y[1..] == x;
  }

  /** A literal that is not a bare lower-case word, or that ends the template,
      cannot go on with a name followed by '%'. */
  lemma NoNameAhead(text: string, rest: string, m: string)
    requires '%' !in text && LowerWord(m)
    requires rest == [] || !LowerWord(text)
    ensures !StartsWith(text + rest, m + "%")
  {
    var x, q := text + rest, m + "%";
    if |q| <= |x| {
      var w := x[..|q|];
      if rest == [] {
        assert w[|m|] == text[|m|] != '%' == q[|m|];
      } else {
        var j :| 0 <= j < |text| && !('a' <= text[j] <= 'z');
        if j < |m| {
          assert w[j] == text[j] && q[j] == m[j];
        } else {
          assert w[|m|] == text[|m|] != '%' == q[|m|];
        }
      }
    }
  }

  /** Step `done + 1` of `Build` fills exactly the placeholders of the name it
      replaces: the placeholders already filled hold no '%', and the others
      are kept because no name can be read across them. */
  lemma {:induction false} StageStep(holes: seq<Hole>, fills: seq<string>, done: nat)
    requires |fills| == 5 && done < 5
    requires PlainHoles(holes)
    requires forall j | 0 <= j < done :: '%' !in fills[j]
    ensures ReplaceAll(Stage(holes, fills, done), Placeholder(PlaceholderNames[done]), fills[done])
         == Stage(holes, fills, done + 1)
    decreases |holes|
  {
    if |holes| > 0 {
      var h, rest := holes[0], holes[1..];
      PlainHolesTail(holes);
      StageStep(rest, fills, done);
      var tail, next := StageCons(holes, fills, done);
      SlotStep(fills, done, h.name, h.after, tail, next);
    }
  }

  /** The stages of a non-empty list of holes: the first slot, its literal,
      then the stage of the rest, before and after step `done + 1`. */
  lemma StageCons(holes: seq<Hole>, fills: seq<string>, done: nat) returns (tail: string, next: string)
    requires |fills| == 5 && done < 5 && |holes| > 0
    ensures tail == Stage(holes[1..], fills, done) && next == Stage(holes[1..], fills, done + 1)
    ensures |holes| == 1 ==> tail == []
    ensures Stage(holes, fills, done) == StageSlot(fills, done, holes[0].name) + (holes[0].after + tail)
    ensures Stage(holes, fills, done + 1) == StageSlot(fills, done + 1, holes[0].name) + (holes[0].after + next)
  {
    tail, next := Stage(holes[1..], fills, done), Stage(holes[1..], fills, done + 1);
  }

  /** One hole and its literal under step `done + 1`, given what the step
      makes of the text after them. */
  lemma SlotStep(fills: seq<string>, done: nat, name: string, after: string, tail: string, next: string)
    requires |fills| == 5 && done < 5
    requires '%' !in name && '%' !in after
    requires forall j | 0 <= j < done :: '%' !in fills[j]
    requires tail == [] || !LowerWord(after)
    requires next == ReplaceAll(tail, Placeholder(PlaceholderNames[done]), fills[done])
    ensures ReplaceAll(StageSlot(fills, done, name) + (after + tail), Placeholder(PlaceholderNames[done]), fills[done])
         == StageSlot(fills, done + 1, name) + (after + next)
  {
    var m, v := PlaceholderNames[done], fills[done];
    var p := Placeholder(m);
    NameFacts(done);
    var i := NameIndex(name);
    ReplaceSkipsPlain(after, p, v, tail);
    if i < done {
      SlotFilled(fills[i], after, tail, p, v);
    } else if i == done {
      ReplaceHit(m, v, after + tail);
    } else {
      NoNameAhead(after, tail, m);
      PlaceholderPass(name, m, after + tail, v);
    }
  }

  /** A filled slot holds no '%' and is passed over with its literal. */
  lemma SlotFilled(slot: string, after: string, tail: string, p: string, v: string)
    requires '%' !in slot && '%' !in after && |p| > 0 && p[0] == '%'
    ensures ReplaceAll(slot + (after + tail), p, v) == slot + ReplaceAll(after + tail, p, v)
  {
    assert slot + (after + tail) == (slot + after) + tail;
    ReplaceSkipsPlain(slot + after, p, v, tail);
    ReplaceSkipsPlain(after, p, v, tail);
  }

  /** One step of `Build` on the whole text: the head holds no '%' and is passed over. */
  lemma StepAt(head: string, holes: seq<Hole>, fills: seq<string>, done: nat)
    requires |fills| == 5 && done < 5
    requires '%' !in head && PlainHoles(holes)
    requires forall j | 0 <= j < done :: '%' !in fills[j]
    ensures ReplaceAll(head + Stage(holes, fills, done), Placeholder(PlaceholderNames[done]), fills[done])
         == head + Stage(holes, fills, done + 1)
  {
    StageStep(holes, fills, done);
    ReplaceSkipsPlain(head, Placeholder(PlaceholderNames[done]), fills[done], Stage(holes, fills, done));
  }

  /** `Build` with a receiver set is its five replacements, in order. */
  lemma BuildUnfold(b: MailBuilder, tokenOf: Subscriber -> string, t1: string, t2: string, t3: string, t4: string, t5: string)
    requires b.receiver.NonNull?
    requires t1 == ReplaceAll(b.template, Placeholder("email"), b.receiver.value.email)
    requires t2 == ReplaceAll(t1, Placeholder("token"), tokenOf(b.receiver.value))
    requires t3 == ReplaceAll(t2, Placeholder("chart"), ChartElements(|b.chartDatas|))
    requires t4 == ReplaceAll(t3, Placeholder("callback"), Callbacks(|b.chartDatas|))
    requires t5 == ReplaceAll(t4, Placeholder("function"), Functions(b.chartDatas))
    ensures Build(b, tokenOf) == Returned(t5)
  {
  }

  /** `Build` on a template `head + %n1% + a1 + ... + %nk% + ak` replaces every
      placeholder of the five names by its filling and keeps everything else:
      the literals hold no '%', none between two placeholders is empty or a
      lower-case word (so no two placeholders are adjacent), and the address
      and token hold no '%' (the later steps scan what the earlier ones wrote). */
  lemma BuildFillsTemplate(b: MailBuilder, tokenOf: Subscriber -> string, head: string, holes: seq<Hole>)
    requires b.receiver.NonNull?
    requires b.template == TemplateText(head, holes)
    requires '%' !in head && PlainHoles(holes)
    requires '%' !in b.receiver.value.email && '%' !in tokenOf(b.receiver.value)
    ensures Build(b, tokenOf) == Returned(FilledText(head, holes, Fillings(b.receiver.value, tokenOf, b.chartDatas)))
  {
    var receiver, charts := b.receiver.value, b.chartDatas;
    var fills := Fillings(receiver, tokenOf, charts);
    SectionsArePlain(|charts|);
    var t1, t2, t3, t4, t5 := StageChain(head, holes, fills);
    BuildUnfold(b, tokenOf, t1, t2, t3, t4, t5);
  }

  /** The five steps, one after the other, on the stages of a template: the
      first scans the template, the last writes the filled text. */
  lemma StageChain(head: string, holes: seq<Hole>, fills: seq<string>)
    returns (t1: string, t2: string, t3: string, t4: string, t5: string)
    requires |fills| == 5 && '%' !in head && PlainHoles(holes)
    requires '%' !in fills[0] && '%' !in fills[1] && '%' !in fills[2] && '%' !in fills[3]
    ensures t1 == ReplaceAll(TemplateText(head, holes), Placeholder("email"), fills[0])
    ensures t2 == ReplaceAll(t1, Placeholder("token"), fills[1])
    ensures t3 == ReplaceAll(t2, Placeholder("chart"), fills[2])
    ensures t4 == ReplaceAll(t3, Placeholder("callback"), fills[3])
    ensures t5 == ReplaceAll(t4, Placeholder("function"), fills[4])
    ensures t5 == FilledText(head, holes, fills)
  {
    StageEnds(holes, fills);
    t1, t2 := head + Stage(holes, fills, 1), head + Stage(holes, fills, 2);
    t3, t4, t5 := head + Stage(holes, fills, 3), head + Stage(holes, fills, 4), head + Stage(holes, fills, 5);
    EmailStep(head, holes, fills);
    TokenStep(head, holes, fills);
    ChartStep(head, holes, fills);
    CallbackStep(head, holes, fills);
    FunctionStep(head, holes, fills);
  }

  lemma EmailStep(head: string, holes: seq<Hole>, fills: seq<string>)
    requires |fills| == 5 && '%' !in head && PlainHoles(holes)
    ensures ReplaceAll(head + Stage(holes, fills, 0), Placeholder("email"), fills[0]) == head + Stage(holes, fills, 1)
  {
    StepAt(head, holes, fills, 0);
  }

  lemma TokenStep(head: string, holes: seq<Hole>, fills: seq<string>)
    requires |fills| == 5 && '%' !in head && PlainHoles(holes)
    requires '%' !in fills[0]
    ensures ReplaceAll(head + Stage(holes, fills, 1), Placeholder("token"), fills[1]) == head + Stage(holes, fills, 2)
  {
    StepAt(head, holes, fills, 1);
  }

  lemma ChartStep(head: string, holes: seq<Hole>, fills: seq<string>)
    requires |fills| == 5 && '%' !in head && PlainHoles(holes)
    requires '%' !in fills[0] && '%' !in fills[1]
    ensures ReplaceAll(head + Stage(holes, fills, 2), Placeholder("chart"), fills[2]) == head + Stage(holes, fills, 3)
  {
    StepAt(head, holes, fills, 2);
  }

  lemma CallbackStep(head: string, holes: seq<Hole>, fills: seq<string>)
    requires |fills| == 5 && '%' !in head && PlainHoles(holes)
    requires '%' !in fills[0] && '%' !in fills[1] && '%' !in fills[2]
    ensures ReplaceAll(head + Stage(holes, fills, 3), Placeholder("callback"), fills[3]) == head + Stage(holes, fills, 4)
  {
    StepAt(head, holes, fills, 3);
  }

  lemma FunctionStep(head: string, holes: seq<Hole>, fills: seq<string>)
    requires |fills| == 5 && '%' !in head && PlainHoles(holes)
    requires '%' !in fills[0] && '%' !in fills[1] && '%' !in fills[2] && '%' !in fills[3]
    ensures ReplaceAll(head + Stage(holes, fills, 4), Placeholder("function"), fills[4]) == head + Stage(holes, fills, 5)
  {
    StepAt(head, holes, fills, 4);
  }

  /** With no charts the three generated sections are empty: every chart,
      callback and function placeholder of the template disappears. */
  lemma BuildWithoutCharts(b: MailBuilder, tokenOf: Subscriber -> string, head: string, holes: seq<Hole>)
    requires b.receiver.NonNull? && |b.chartDatas| == 0
    requires b.template == TemplateText(head, holes)
    requires '%' !in head && PlainHoles(holes)
    requires '%' !in b.receiver.value.email && '%' !in tokenOf(b.receiver.value)
    ensures Build(b, tokenOf) == Returned(FilledText(head, holes, [b.receiver.value.email, tokenOf(b.receiver.value), "", "", ""]))
  {
    BuildFillsTemplate(b, tokenOf, head, holes);
    NoSections(b.chartDatas);
  }

  lemma NoSections(charts: seq<ChartData>)
    requires |charts| == 0
    ensures ChartElements(|charts|) == [] && Callbacks(|charts|) == [] && Functions(charts) == []
  {
  }

  /** A template holding one placeholder of the five, and no other percent
      sign, gets that placeholder's filling in its place and nothing else changes. */
  lemma BuildFillsPlaceholder(b: MailBuilder, tokenOf: Subscriber -> string, a: string, name: string, c: string)
    requires b.receiver.NonNull?
    requires name in PlaceholderNames
    requires b.template == a + Placeholder(name) + c
    requires '%' !in a && '%' !in c
    requires '%' !in b.receiver.value.email && '%' !in tokenOf(b.receiver.value)
    ensures Build(b, tokenOf) == Returned(a + Fillings(b.receiver.value, tokenOf, b.chartDatas)[NameIndex(name)] + c)
  {
    var fills := Fillings(b.receiver.value, tokenOf, b.chartDatas);
    var holes := [Hole(name, c)];
    OneHole(a, name, c, fills);
    BuildFillsTemplate(b, tokenOf, a, holes);
  }

  /** A template with a single placeholder of the five, as a head and one hole. */
  lemma OneHole(a: string, name: string, c: string, fills: seq<string>)
    requires |fills| == 5 && name in PlaceholderNames && '%' !in c
    ensures PlainHoles([Hole(name, c)])
    ensures TemplateText(a, [Hole(name, c)]) == a + Placeholder(name) + c
    ensures FilledText(a, [Hole(name, c)], fills) == a + fills[NameIndex(name)] + c
  {
    var holes := [Hole(name, c)];
    var k :| 0 <= k < 5 && PlaceholderNames[k] == name;
    NameFacts(k);
    assert holes[1..] == [];
    assert HolesText(holes) == Placeholder(name) + c + HolesText([]);
    assert FilledHoles(holes, fills) == FillOf(fills, name) + c + FilledHoles([], fills);
  }

  /** A literal between two placeholders that spells a name is read as a
      placeholder: in `%c%email%t%` the first step replaces the middle
      `%email%`, and neither `%c%` nor `%t%` is left to be filled. */
  lemma NameBetweenPlaceholdersCaptured(b: MailBuilder, tokenOf: Subscriber -> string, c: string, t: string)
    requires b.receiver.NonNull? && b.template == "%" + c + Placeholder("email") + t + "%"
    requires '%' !in c && '%' !in t && c != "email" && |c| + |t| > 8
    requires '%' !in b.receiver.value.email
    ensures Build(b, tokenOf) == Returned("%" + c + b.receiver.value.email + t + "%")
  {
    var receiver, charts := b.receiver.value, b.chartDatas;
    var e := receiver.email;
    var inner := c + e + t;
    var t1 := "%" + c + e + t + "%";
    assert t1 == ReplaceAll(b.template, Placeholder("email"), e) by {
      NamesArePlain();
      CapturedBetween(c, "email", e, t);
    }
    assert t1 == "%" + inner + "%";
    KeepWholeEach(inner, tokenOf(receiver), ChartElements(|charts|), Callbacks(|charts|), Functions(charts));
    BuildUnfold(b, tokenOf, t1, t1, t1, t1, t1);
  }

  /** The case `%chart%email%token%`: the chart and token placeholders are
      lost and the address lands between their names. */
  lemma ChartEmailTokenCaptured(b: MailBuilder, tokenOf: Subscriber -> string)
    requires b.receiver.NonNull? && b.template == "%chart%email%token%"
    requires '%' !in b.receiver.value.email
    ensures Build(b, tokenOf) == Returned("%chart" + b.receiver.value.email + "token%")
  {
    var e := b.receiver.value.email;
    CaptureShape(e);
    NamesDiffer();
    NamesArePlain();
    NameBetweenPlaceholdersCaptured(b, tokenOf, "chart", "token");
  }

  lemma CaptureShape(e: string)
    ensures "%chart%email%token%" == "%" + "chart" + Placeholder("email") + "token" + "%"
    ensures "%" + "chart" + e + "token" + "%" == "%chart" + e + "token%"
  {
  }

  /** In `%c%m%t%` the closing mark of `%c%` and the opening one of `%t%`
      enclose `m`: replacing `%m%` swallows both and leaves `%c`, the value
      and `t%`. */
  lemma CapturedBetween(c: string, m: string, e: string, t: string)
    requires '%' !in c && '%' !in m && '%' !in t && c != m
    ensures ReplaceAll("%" + c + Placeholder(m) + t + "%", Placeholder(m), e) == "%" + c + e + t + "%"
  {
    var p := Placeholder(m);
    var tail := t + "%";
    var x := p + tail;
    MarkAtEnd(t, m, e);
    ReplaceHit(m, e, tail);
    SkipOtherName(c, m, x, e);
    ReplaceSkipsPlain(c, p, e, x);
    CaptureRegroup(c, p, e, t, x);
  }

  lemma CaptureRegroup(c: string, p: string, e: string, t: string, x: string)
    requires x == p + (t + "%")
    ensures "%" + c + p + t + "%" == "%" + c + x
    ensures "%" + (c + (e + (t + "%"))) == "%" + c + e + t + "%"
  {
  }

  /** A text that holds no mark but the last one is left alone. */
  lemma MarkAtEnd(t: string, m: string, e: string)
    requires '%' !in t
    ensures ReplaceAll(t + "%", Placeholder(m), e) == t + "%"
  {
    var p := Placeholder(m);
    ReplaceSkipsPlain(t, p, e, "%");
    assert !StartsWith("%", p);
    assert "%"[1..] == [];
  }

  /** The opening mark of `%c` is kept when `c` is not the name replaced. */
  lemma SkipOtherName(c: string, m: string, x: string, e: string)
    requires '%' !in c && '%' !in m && c != m && |x| > 0 && x[0] == '%'
    ensures ReplaceAll("%" + c + x, Placeholder(m), e) == "%" + ReplaceAll(c + x, Placeholder(m), e)
  {
    var s := "%" + c + x;
    OtherNameFirst(c, m, x);
    assert s[1..] == c + x;
  }

  /** A text `%c` followed by a mark does not start with the placeholder of another name. */
  lemma OtherNameFirst(c: string, m: string, x: string)
    requires '%' !in c && '%' !in m && c != m && |x| > 0 && x[0] == '%'
    ensures !StartsWith("%" + c + x, Placeholder(m))
  {
    var s, p := "%" + c + x, Placeholder(m);
    if |p| <= |s| {
      var w := s[..|p|];
      if |c| < |m| {
        assert w[|c| + 1] == '%' != m[|c|] == p[|c| + 1];
      } else if |c| > |m| {
        assert w[|m| + 1] == c[|m|] != '%';
      } else {
        var k :| 0 <= k < |c| && c[k] != m[k];
        assert w[k + 1] == c[k] && p[k + 1] == m[k];
      }
    }
  }

  /** The four later steps all leave `%inner%` alone. */
  lemma KeepWholeEach(inner: string, token: string, elements: string, callbacks: string, functions: string)
    requires '%' !in inner && |inner| > 8
    ensures ReplaceAll("%" + inner + "%", Placeholder("token"), token) == "%" + inner + "%"
    ensures ReplaceAll("%" + inner + "%", Placeholder("chart"), elements) == "%" + inner + "%"
    ensures ReplaceAll("%" + inner + "%", Placeholder("callback"), callbacks) == "%" + inner + "%"
    ensures ReplaceAll("%" + inner + "%", Placeholder("function"), functions) == "%" + inner + "%"
  {
    NamesArePlain();
    KeepWhole(inner, "token", token);
    KeepWhole(inner, "chart", elements);
    KeepWhole(inner, "callback", callbacks);
    KeepWhole(inner, "function", functions);
  }

  /** A text `%inner%` whose only marks are its ends holds no other placeholder. */
  lemma KeepWhole(inner: string, m: string, v: string)
    requires '%' !in inner && '%' !in m && |inner| > |m|
    ensures ReplaceAll("%" + inner + "%", Placeholder(m), v) == "%" + inner + "%"
  {
    var s := "%" + inner + "%";
    assert s == [] + ['%'] + inner + ['%'] + [];
    assert Placeholder(m) == ['%'] + m + ['%'];
    OtherDelimitedAbsent([], inner, [], m, '%');
    ReplaceAbsent(s, Placeholder(m), v);
  }

  // Reading the rows back: the emitted text determines the dates and prices.

  /** A price cell: a number, or the literal `null` for a missing entry. */
  datatype CellValue = Missing | Price(price: int)

  /** What one row says: the year, the zero-based month, the day, and the two cells. */
  datatype RowValues = RowValues(year: int, monthIndex: int, day: int, closing: CellValue, predicted: CellValue)

  function Lookup(prices: map<Date, int>, d: Date): CellValue {
    if d in prices then Price(prices[d]) else Missing
  }

  /** The rows `BuildFunction` is meant to write, one per date of either map,
      ascending: month written as `Month - 1`, a missing entry as null. */
  function ChartRows(chart: ChartData): seq<RowValues> {
    ValuesOf(chart, RowDates(chart))
  }

  /** The reference `ChartRows`, spelled out element by element: one row per
      date of either map, each holding that date (month counted from 0) and
      the two looked-up cells. Together with `RowsTextReadsBack` it says what
      the emitted rows contain. */
  lemma ChartRowsSpec(chart: ChartData)
    ensures |ChartRows(chart)| == |chart.closingPrices.Keys + chart.predictPrices.Keys|
    ensures forall i | 0 <= i < |ChartRows(chart)| ::
      var d := RowDates(chart)[i];
      && ChartRows(chart)[i] == RowValues(d.year, d.month - 1, d.day, Lookup(chart.closingPrices, d), Lookup(chart.predictPrices, d))
      && (d in chart.closingPrices || d in chart.predictPrices)
  {
    forall i | 0 <= i < |ChartRows(chart)| {
      ChartRowAt(chart, i);
    }
  }

  lemma ChartRowAt(chart: ChartData, i: nat)
    requires i < |RowDates(chart)|
    ensures i < |ChartRows(chart)|
    ensures var d := RowDates(chart)[i];
      && ChartRows(chart)[i] == RowValues(d.year, d.month - 1, d.day, Lookup(chart.closingPrices, d), Lookup(chart.predictPrices, d))
      && (d in chart.closingPrices || d in chart.predictPrices)
  {
    var dates := RowDates(chart);
    assert dates[i] in dates;
  }

  function ParseCell(s: string): Nullable<CellValue> {
    if s == "null" then NonNull(Missing)
    else
      var n :- ParseInt(s);
      NonNull(Price(n))
  }

  /** Reads one row off the front of `s` and returns what is left. */
  function ParseRow(s: string): (r: Nullable<(RowValues, string)>)
    ensures r.NonNull? ==> |r.value.1| < |s|
  {
    if !StartsWith(s, "[new Date(") then Null
    else
      var y :- Cut(s[|"[new Date("|..], ", ");
      var m :- Cut(y.1, ", ");
      var d :- Cut(m.1, "), ");
      var c :- Cut(d.1, ", ");
      var p :- Cut(c.1, "], ");
      var year :- ParseInt(y.0);
      var month :- ParseInt(m.0);
      var day :- ParseInt(d.0);
      var closing :- ParseCell(c.0);
      var predicted :- ParseCell(p.0);
      NonNull((RowValues(year, month, day, closing, predicted), p.1))
  }

  /** Reads rows until the text is used up. */
  function ParseRows(s: string): Nullable<seq<RowValues>>
    decreases |s|
  {
    if |s| == 0 then NonNull([])
    else
      var first :- ParseRow(s);
      var rest :- ParseRows(first.1);
      NonNull([first.0] + rest)
  }

  /** The text of a number or of `null` holds none of the characters that end a cell. */
  lemma CellTextIsPlain(t: string)
    requires t == "null" || IsDigits(t) || (|t| > 1 && t[0] == '-' && IsDigits(t[1..]))
    ensures forall i | 0 <= i < |t| :: t[i] != ',' && t[i] != ')' && t[i] != ']'
  {
    if |t| > 1 && t[0] == '-' && IsDigits(t[1..]) {
      forall i | 1 <= i < |t| ensures t[i] != ',' && t[i] != ')' && t[i] != ']' {
        assert t[i] == t[1..][i - 1];
      }
    }
  }

  lemma IntTextIsPlain(n: int)
    ensures forall i | 0 <= i < |IntToString(n)| :: IntToString(n)[i] != ',' && IntToString(n)[i] != ')' && IntToString(n)[i] != ']'
  {
    CellTextIsPlain(IntToString(n));
  }

  lemma ParseCellOfCell(prices: map<Date, int>, d: Date)
    ensures ParseCell(Cell(prices, d)) == NonNull(Lookup(prices, d))
    ensures forall i | 0 <= i < |Cell(prices, d)| :: Cell(prices, d)[i] != ',' && Cell(prices, d)[i] != ']'
  {
    if d in prices {
      IntToStringRoundTrip(prices[d]);
      IntTextIsPlain(prices[d]);
      assert IntToString(prices[d]) != "null";
    }
  }

  /** How `ParseRow` takes apart a row written from five plain pieces. */
  lemma ParseRowOfPieces(ys: string, ms: string, ds: string, cs: string, ps: string, rest: string)
    requires forall i | 0 <= i < |ys| :: ys[i] != ','
    requires forall i | 0 <= i < |ms| :: ms[i] != ','
    requires forall i | 0 <= i < |ds| :: ds[i] != ')'
    requires forall i | 0 <= i < |cs| :: cs[i] != ','
    requires forall i | 0 <= i < |ps| :: ps[i] != ']'
    ensures ParseRow("[new Date(" + (ys + ", " + (ms + ", " + (ds + "), " + (cs + ", " + (ps + "], " + rest))))))
         == (var year :- ParseInt(ys);
             var month :- ParseInt(ms);
             var day :- ParseInt(ds);
             var closing :- ParseCell(cs);
             var predicted :- ParseCell(ps);
             NonNull((RowValues(year, month, day, closing, predicted), rest)))
  {
    var t5 := ps + "], " + rest;
    var t4 := cs + ", " + t5;
    var t3 := ds + "), " + t4;
    var t2 := ms + ", " + t3;
    var t1 := ys + ", " + t2;
    var s := "[new Date(" + t1;
    assert StartsWith(s, "[new Date(") && s[|"[new Date("|..] == t1;
    CutAt(ys, ", ", t2);
    CutAt(ms, ", ", t3);
    CutAt(ds, "), ", t4);
    CutAt(cs, ", ", t5);
    CutAt(ps, "], ", rest);
  }

  lemma Reassociate(p0: string, y: string, d1: string, m: string, d2: string, dd: string, d3: string,
                    c: string, d4: string, pp: string, d5: string, rest: string)
    ensures p0 + y + d1 + m + d2 + dd + d3 + c + d4 + pp + d5 + rest
         == p0 + (y + d1 + (m + d2 + (dd + d3 + (c + d4 + (pp + d5 + rest)))))
  {
  }

  lemma RowShape(chart: ChartData, d: Date, rest: string)
    ensures Row(chart, d) + rest
         == "[new Date(" + (IntToString(d.year) + ", " + (IntToString(d.month - 1) + ", " + (IntToString(d.day) + "), "
            + (Cell(chart.closingPrices, d) + ", " + (Cell(chart.predictPrices, d) + "], " + rest)))))
  {
    Reassociate("[new Date(", IntToString(d.year), ", ", IntToString(d.month - 1), ", ", IntToString(d.day), "), ",
                Cell(chart.closingPrices, d), ", ", Cell(chart.predictPrices, d), "], ", rest);
  }

  /** A row followed by any text reads back as that row's values, leaving the text. */
  lemma ParseRowOfRow(chart: ChartData, d: Date, rest: string)
    ensures ParseRow(Row(chart, d) + rest)
         == NonNull((RowValues(d.year, d.month - 1, d.day, Lookup(chart.closingPrices, d), Lookup(chart.predictPrices, d)), rest))
  {
    RowShape(chart, d, rest);
    IntTextIsPlain(d.year);
    IntTextIsPlain(d.month - 1);
    IntTextIsPlain(d.day);
    ParseCellOfCell(chart.closingPrices, d);
    ParseCellOfCell(chart.predictPrices, d);
    ParseRowOfPieces(IntToString(d.year), IntToString(d.month - 1), IntToString(d.day),
                     Cell(chart.closingPrices, d), Cell(chart.predictPrices, d), rest);
    IntToStringRoundTrip(d.year);
    IntToStringRoundTrip(d.month - 1);
    IntToStringRoundTrip(d.day);
  }

  function RowsOf(chart: ChartData, dates: seq<Date>): string {
    Flatten(seq(|dates|, i requires 0 <= i < |dates| => Row(chart, dates[i])))
  }

  function ValuesOf(chart: ChartData, dates: seq<Date>): seq<RowValues> {
    seq(|dates|, i requires 0 <= i < |dates| =>
      RowValues(dates[i].year, dates[i].month - 1, dates[i].day,
                Lookup(chart.closingPrices, dates[i]), Lookup(chart.predictPrices, dates[i])))
  }

  lemma RowsOfCons(chart: ChartData, dates: seq<Date>)
    requires |dates| > 0
    ensures RowsOf(chart, dates) == Row(chart, dates[0]) + RowsOf(chart, dates[1..])
    ensures ValuesOf(chart, dates) == [ValuesOf(chart, dates)[0]] + ValuesOf(chart, dates[1..])
  {
    RowsOfTail(chart, dates);
    ValuesOfTail(chart, dates);
  }

  lemma RowsOfTail(chart: ChartData, dates: seq<Date>)
    requires |dates| > 0
    ensures RowsOf(chart, dates) == Row(chart, dates[0]) + RowsOf(chart, dates[1..])
  {
    var tail := dates[1..];
    var rows := seq(|dates|, i requires 0 <= i < |dates| => Row(chart, dates[i]));
    var tailRows := seq(|tail|, i requires 0 <= i < |tail| => Row(chart, tail[i]));
    forall i | 0 <= i < |tail| ensures rows[1..][i] == tailRows[i] {
      assert tail[i] == dates[i + 1];
    }
    assert rows[1..] == tailRows;
    assert Flatten(rows) == rows[0] + Flatten(tailRows);
  }

  lemma ValuesOfTail(chart: ChartData, dates: seq<Date>)
    requires |dates| > 0
    ensures ValuesOf(chart, dates) == [ValuesOf(chart, dates)[0]] + ValuesOf(chart, dates[1..])
  {
    var values, tailValues := ValuesOf(chart, dates), ValuesOf(chart, dates[1..]);
    assert values[1..] == tailValues;
  }

  lemma ParseRowsCons(s: string, v: RowValues, rest: string, vs: seq<RowValues>)
    requires |s| > 0
    requires ParseRow(s) == NonNull((v, rest))
    requires ParseRows(rest) == NonNull(vs)
    ensures ParseRows(s) == NonNull([v] + vs)
  {
  }

  lemma ParseRowsOfNoRows(chart: ChartData, dates: seq<Date>)
    requires |dates| == 0
    ensures ParseRows(RowsOf(chart, dates)) == NonNull(ValuesOf(chart, dates))
  {
    assert RowsOf(chart, dates) == [];
    assert ValuesOf(chart, dates) == [];
  }

  lemma ParseRowsOfRowsStep(chart: ChartData, dates: seq<Date>)
    requires |dates| > 0
    requires ParseRows(RowsOf(chart, dates[1..])) == NonNull(ValuesOf(chart, dates[1..]))
    ensures ParseRows(RowsOf(chart, dates)) == NonNull(ValuesOf(chart, dates))
  {
    var rest := RowsOf(chart, dates[1..]);
    var d := dates[0];
    var row := Row(chart, d);
    var v := RowValues(d.year, d.month - 1, d.day, Lookup(chart.closingPrices, d), Lookup(chart.predictPrices, d));
    RowsOfCons(chart, dates);
    assert ValuesOf(chart, dates)[0] == v;
    ParseRowOfRow(chart, d, rest);
    RowNonEmpty(chart, d);
    ParseRowsCons(row + rest, v, rest, ValuesOf(chart, dates[1..]));
  }

  lemma RowNonEmpty(chart: ChartData, d: Date)
    ensures |Row(chart, d)| > 0
  {
  }

  lemma {:induction false} ParseRowsOfRows(chart: ChartData, dates: seq<Date>)
    ensures ParseRows(RowsOf(chart, dates)) == NonNull(ValuesOf(chart, dates))
    decreases |dates|
  {
    if |dates| == 0 {
      ParseRowsOfNoRows(chart, dates);
    } else {
      ParseRowsOfRows(chart, dates[1..]);
      ParseRowsOfRowsStep(chart, dates);
    }
  }

  /** The rows `BuildFunction` writes read back as exactly `ChartRows`: one row
      per date in the union of the two maps' keys, strictly ascending, each
      cell the mapped price or null. */
  lemma RowsTextReadsBack(chart: ChartData)
    ensures ParseRows(RowsText(chart)) == NonNull(ChartRows(chart))
  {
    ParseRowsOfRows(chart, RowDates(chart));
  }
}
