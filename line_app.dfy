/** The bot of line_app.py: the 3-1-6 screening reply for one fund group,
    the fund list reply, and the dispatch of an incoming text message. The
    network is replaced by its results: the listing page's links and a
    `fetch` function from a request to the return table it yields. */
module LineApp {
  import opened Outcomes
  import opened Funds
  import opened FundTable
  import opened Screening
  import opened FundCatalog
  import opened TextLines

  /** The command that reloads and lists the catalog. */
  const ListCommand: string := "基金列表"
  /** The reply to any other text that is not a fund name. */
  const InvalidCommandReply: string := "請輸入正確指令"
  /** The reporting period every fund reply asks for (line 152). */
  const Year: string := "2020"
  const Month: string := "02"

  /** The query of a return-table fetch (line 61). */
  datatype Request = Request(year: string, month: string, groupId: string)

  /** How the reply prints a cell and a converted return; the source's
      `str` of a cell and of a float, which the model does not fix. */
  datatype Format = Format(cell: Cell -> string, value: int -> string)

  /** Line 103 without its newline: name, 3-year, 1-year and 6-month return. */
  function RowLine(r: FundRow, nameCol: nat, fmt: Format): string {
    fmt.cell(CellAt(r.cells, nameCol)) + ", " + fmt.value(r.threeYears) + ", "
      + fmt.value(r.oneYear) + ", " + fmt.value(r.sixMonths)
  }

  function RowLines(rows: seq<FundRow>, nameCol: nat, fmt: Format): (ls: seq<string>)
    ensures |ls| == |rows|
    ensures forall i :: 0 <= i < |rows| ==> ls[i] == RowLine(rows[i], nameCol, fmt)
  {
    seq(|rows|, i requires 0 <= i < |rows| => RowLine(rows[i], nameCol, fmt))
  }

  /** What `fetch_fund_rule_items` returns for the table a fetch yielded
      (None: the page has no such table). */
  function RuleItems(page: Option<RawTable>, parse: string -> Option<int>, fmt: Format): (r: Result<string>)
    ensures page.None? ==> r == Err(TableNotFound)
    ensures page.Some? ==> r != Err(TableNotFound)
    ensures r.Err? ==>
      || r.error == TableNotFound
      || r.error == HeaderRowsMissing
      || r.error == ColumnMissing(NameColumn)
      || exists h :: r.error == ColumnMissing(HorizonName(h)) || r.error == NotNumeric(HorizonName(h))
    ensures r.Ok? ==> page.Some? && |page.value| >= 2
    ensures r.Ok? ==> Screened(page, parse).Ok? && (r.value == "" <==> Screened(page, parse).value.kept == [])
  {
    var s :- Screened(page, parse);
    Items(s.kept, s.header, fmt)
  }

  /** The rows that survive the 3-1-6 rule, with the header they are read
      under (lines 74-97). */
  datatype Survivors = Survivors(kept: seq<FundRow>, header: seq<Option<Cell>>)

  /** Lines 67-97: find the table, post-process it, convert its returns and
      screen it. */
  function Screened(page: Option<RawTable>, parse: string -> Option<int>): (r: Result<Survivors>)
    ensures page.None? ==> r == Err(TableNotFound)
    ensures page.Some? ==> r != Err(TableNotFound)
    ensures r.Ok? <==> page.Some? && Prepare(page.value).Ok? && Decode(Prepare(page.value).value, parse).Ok?
    ensures r.Ok? ==>
      var rows := Decode(Prepare(page.value).value, parse).value;
      && r.value.header == page.value[1]
      && |r.value.kept| == (|page.value| - 2) / 2 / 2 / 2
      && multiset(r.value.kept) <= multiset(rows)
      && Descending(r.value.kept, SixMonths)
  {
    if page.None? then Err(TableNotFound)
    else
      var t :- Prepare(page.value);
      var rows :- Decode(t, parse);
      Ok(Survivors(Screen(rows), t.header))
  }

  /** Lines 98-105: the reply text for the screened rows. The name column
      is looked up per row, so a missing one fails only if a row is left. */
  function Items(kept: seq<FundRow>, header: seq<Option<Cell>>, fmt: Format): (r: Result<string>)
    ensures kept == [] ==> r == Ok("")
    ensures r.Err? <==> kept != [] && ColumnIndex(header, NameColumn).None?
    ensures r.Err? ==> r.error == ColumnMissing(NameColumn)
    ensures r.Ok? ==> (r.value == "" <==> kept == [])
  {
    if kept == [] then Ok("")
    else
      var nameCol := ColumnIndex(header, NameColumn);
      if nameCol.None? then Err(ColumnMissing(NameColumn))
      else Ok(JoinLines(RowLines(kept, nameCol.value, fmt)))
  }

  /** Lines 67-105: post-process, convert and screen the table, then build
      the reply. */
  method FetchFundRuleItems(page: Option<RawTable>, parse: string -> Option<int>, fmt: Format)
    returns (r: Result<string>)
    ensures r == RuleItems(page, parse, fmt)
  {
    var s := Screened(page, parse);
    if s.Err? {
      return Err(s.error);
    }
    r := RenderItems(s.value.kept, s.value.header, fmt);
  }

  /** Lines 98-105: the reply built one line at a time (the loop of lines
      101-103). */
  method RenderItems(kept: seq<FundRow>, header: seq<Option<Cell>>, fmt: Format) returns (r: Result<string>)
    ensures r == Items(kept, header, fmt)
  {
    var items := "";
    if kept != [] {
      var nameCol := ColumnIndex(header, NameColumn);
      var i := 0;
      while i < |kept|
        invariant 0 <= i <= |kept|
        invariant nameCol.None? ==> i == 0
        invariant nameCol.Some? ==> items == JoinLines(RowLines(kept[..i], nameCol.value, fmt))
      {
        if nameCol.None? {
          return Err(ColumnMissing(NameColumn));
        }
        var line := RowLine(kept[i], nameCol.value, fmt);
        ReplyGrows(kept, i, nameCol.value, fmt);
        items := items + line + "\n";
        i := i + 1;
      }
      assert kept[..|kept|] == kept;
    }
    return Ok(items);
  }

  /** One more row adds its line to the reply. */
  lemma ReplyGrows(kept: seq<FundRow>, i: nat, nameCol: nat, fmt: Format)
    requires i < |kept|
    ensures JoinLines(RowLines(kept[..i + 1], nameCol, fmt))
            == JoinLines(RowLines(kept[..i], nameCol, fmt)) + RowLine(kept[i], nameCol, fmt) + "\n"
  {
    var line := RowLine(kept[i], nameCol, fmt);
    JoinLinesSnoc(RowLines(kept[..i], nameCol, fmt), line);
    assert RowLines(kept[..i + 1], nameCol, fmt) == RowLines(kept[..i], nameCol, fmt) + [line];
  }

  /** A table with fewer than 8 data rows (10 rows as fetched) screens to
      nothing and replies with the empty string, with no error. */
  lemma SmallTableRepliesEmpty(raw: RawTable, parse: string -> Option<int>, fmt: Format)
    requires |raw| < 10
    ensures Prepare(raw).Ok? && Decode(Prepare(raw).value, parse).Ok? ==>
              RuleItems(Some(raw), parse, fmt) == Ok("")
  {
  }

  /** The reply of a successful screening, read back line by line, is one
      line per surviving row, in the order `nlargest` returned them:
      `floor(floor(floor(N/2)/2)/2)` rows of the table, each no worse by
      6-month return than the next. */
  lemma ReplyListsScreenedRows(raw: RawTable, parse: string -> Option<int>, fmt: Format)
    requires Prepare(raw).Ok? && Decode(Prepare(raw).value, parse).Ok?
    requires ColumnIndex(raw[1], NameColumn).Some?
    requires forall c :: NoNewline(fmt.cell(c))
    requires forall v :: NoNewline(fmt.value(v))
    ensures var rows := Decode(Prepare(raw).value, parse).value;
      var kept := Screen(rows);
      && RuleItems(Some(raw), parse, fmt).Ok?
      && SplitLines(RuleItems(Some(raw), parse, fmt).value) == RowLines(kept, ColumnIndex(raw[1], NameColumn).value, fmt)
      && |kept| == (|raw| - 2) / 2 / 2 / 2
      && multiset(kept) <= multiset(rows)
      && Descending(kept, SixMonths)
  {
    var t := Prepare(raw).value;
    var kept := Screen(Decode(t, parse).value);
    var ls := RowLines(kept, ColumnIndex(raw[1], NameColumn).value, fmt);
    forall i | 0 <= i < |ls| ensures NoNewline(ls[i]) {
      var r := kept[i];
      var j := ColumnIndex(raw[1], NameColumn).value;
      NoNewlineConcat(fmt.cell(CellAt(r.cells, j)), ", ", fmt.value(r.threeYears), fmt.value(r.oneYear), fmt.value(r.sixMonths));
    }
    SplitJoinLines(ls);
  }

  lemma NoNewlineConcat(a: string, sep: string, b: string, c: string, d: string)
    requires NoNewline(a) && NoNewline(b) && NoNewline(c) && NoNewline(d) && sep == ", "
    ensures NoNewline(a + sep + b + sep + c + sep + d)
  {
    var s := a + sep + b + sep + c + sep + d;
    forall k | 0 <= k < |s| ensures s[k] != '\n' {
    }
  }

  /** The process-wide state: `fund_map_dict` (line 36), its keys in
      insertion order and its entries. */
  class FundBot {
    var order: seq<string>
    var groups: map<string, string>

    function Snapshot(): Catalog
      reads this
    {
      Catalog(order, groups)
    }

    ghost predicate Valid()
      reads this
    {
      FundCatalog.Valid(Snapshot())
    }

    /** The dictionary starts empty; nothing fills it before the first list command. */
    constructor ()
      ensures Valid() && order == [] && groups == map[]
    {
      order := [];
      groups := map[];
    }

    /** `init_fund_list` (lines 39-56) on the listing page's links (None:
        the page has no listing table). */
    method InitFundList(page: Option<seq<Link>>) returns (status: Result<()>)
      requires Valid()
      modifies this
      ensures Valid()
      ensures page.None? ==> status == Err(TableNotFound) && Snapshot() == old(Snapshot())
      ensures page.Some? ==> Loaded(Snapshot(), status) == Absorb(old(Snapshot()), page.value)
    {
      if page.None? {
        return Err(TableNotFound);
      }
      var links := page.value;
      var i := 0;
      while i < |links|
        invariant 0 <= i <= |links| && Valid()
        invariant Absorb(Snapshot(), links[i..]) == Absorb(old(Snapshot()), links)
      {
        var l := links[i];
        assert links[i..][0] == l && links[i..][1..] == links[i + 1..];
        if l.text != "" {
          if l.href.None? {
            return Err(HrefMissing);
          }
          var id := GroupIdOf(l.href.value);
          if id.None? {
            return Err(GroupIdMissing(l.href.value));
          }
          ghost var before := Snapshot();
          if l.text !in groups {
            order := order + [l.text];
          }
          groups := groups[l.text := id.value];
          assert Snapshot() == Put(before, l.text, id.value);
        }
        i := i + 1;
      }
      return Ok(());
    }

    /** Lines 143-145: one line per fund name, in insertion order. */
    method ListNames() returns (s: string)
      ensures s == JoinLines(order)
    {
      s := "";
      var i := 0;
      while i < |order|
        invariant 0 <= i <= |order|
        invariant s == JoinLines(order[..i])
      {
        JoinLinesSnoc(order[..i], order[i]);
        assert order[..i + 1] == order[..i] + [order[i]];
        s := s + order[i] + "\n";
        i := i + 1;
      }
      assert order[..|order|] == order;
    }

    /** `handle_message` (lines 137-159). `reply` is the text sent back, or
        the error that escapes instead; `request` is the return-table fetch
        made, if any. */
    method HandleMessage(input: string, listPage: Option<seq<Link>>,
                         fetch: Request -> Option<RawTable>,
                         parse: string -> Option<int>, fmt: Format)
      returns (reply: Result<string>, request: Option<Request>)
      requires Valid()
      modifies this
      ensures Valid()
      ensures input == ListCommand ==> request.None?
      ensures input == ListCommand && listPage.None? ==>
        reply == Err(TableNotFound) && Snapshot() == old(Snapshot())
      ensures input == ListCommand && listPage.Some? ==>
        var r := Absorb(old(Snapshot()), listPage.value);
        Snapshot() == r.catalog &&
        reply == (if r.status.Ok? then Ok(JoinLines(r.catalog.order)) else Err(r.status.error))
      ensures input != ListCommand && input in old(groups) ==>
        request == Some(Request(Year, Month, old(groups)[input])) &&
        reply == RuleItems(fetch(request.value), parse, fmt) &&
        Snapshot() == old(Snapshot())
      ensures input != ListCommand && input !in old(groups) ==>
        request.None? && reply == Ok(InvalidCommandReply) && Snapshot() == old(Snapshot())
    {
      request := None;
      if input == ListCommand {
        var status := InitFundList(listPage);
        if status.Err? {
          return Err(status.error), None;
        }
        var names := ListNames();
        reply := Ok(names);
      } else if input in groups {
        var groupId := groups[input];
        request := Some(Request(Year, Month, groupId));
        reply := FetchFundRuleItems(fetch(request.value), parse, fmt);
      } else {
        reply := Ok(InvalidCommandReply);
      }
    }
  }
}
