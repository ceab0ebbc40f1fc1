/** The import of Robert Darnton's sample of STN orders in
    `import_data_spreadsheets` (mpcereform/core.py:723-744): the client name
    is replaced by its STN client code when it is one of sixteen known names,
    and the `DD/MM/YYYY` order date, with `?` for unknown digits, is
    reshaped into `YYYY-MM-DD`. */
module Darnton {
  import opened Wrappers
  import opened Text
  import opened Workbook

  /** The eleven cells of a row of the `FicheSauvegarde` sheet. */
  datatype SampleRow = SampleRow(
    title: Cell, format: Cell, volumes: Cell, author: Cell, num: Cell, date: Cell,
    longTitle: Cell, darnId: Cell, orderedBy: Cell, unused: Cell, notes: Cell)

  /** A row of `stn_darnton_sample_order`. */
  datatype Order = Order(
    id: Cell, title: Cell, format: Cell, volumes: Cell, author: Cell, numOrdered: Cell,
    dateOrdered: string, longTitle: Cell, orderedBy: Cell, notes: Cell)

  /** `date.replace(...)` on a cell that is not text raises; the error
      names the row (counting from zero). */
  datatype ImportError = DateNotText(row: nat)

  /** `DARNTON_CLIENTS`: the names in the sample and their client codes. */
  const DarntonClients: map<string, string> := map[
    "Bergeret" := "cl0335", "Buchet" := "cl1468", "Caldesaigues" := "cl1203",
    "Charmet" := "cl0274", "Chevrier" := "cl1763", "Couret de Villeneuve" := "cl1510",
    "Fontanel" := "cl1224", "Gaude" := "cl1472", "Lair" := "cl0328",
    "Lepagnez" := "cl0288", "Letourmy" := "cl1514", "Mossy" := "cl1210",
    "Pavie" := "cl1834", "Rigaud" := "cl1266", "Robert&Gauthier" := "cl0353",
    "Sens" := "cl2067"]

  /** A client code: `cl` and four digits. */
  predicate ClientCode(code: string) {
    |code| == 6 && code[..2] == "cl" && AllDigits(code[2..])
  }

  /** Every code in the table is a client code, and none is itself a name
      in the table. */
  lemma DarntonClientsWellFormed()
    ensures forall name :: name in DarntonClients ==> ClientCode(DarntonClients[name])
    ensures forall name :: name in DarntonClients ==> DarntonClients[name] !in DarntonClients
  {
    forall name | name in DarntonClients
      ensures ClientCode(DarntonClients[name]) && DarntonClients[name] !in DarntonClients
    {
      var code := DarntonClients[name];
      assert code[..2] == "cl" && |code| == 6;
    }
  }

  /** `if ordered_by in DARNTON_CLIENTS: ordered_by = DARNTON_CLIENTS[ordered_by]`. */
  function LookupClient(orderedBy: Cell): (r: Cell)
    ensures orderedBy.Text? && orderedBy.s in DarntonClients ==> r == Text(DarntonClients[orderedBy.s]) && ClientCode(r.s)
    ensures !(orderedBy.Text? && orderedBy.s in DarntonClients) ==> r == orderedBy
  {
    DarntonClientsWellFormed();
    if orderedBy.Text? && orderedBy.s in DarntonClients then Text(DarntonClients[orderedBy.s]) else orderedBy
  }

  /** Looking a name up twice changes nothing more: a code is never a name. */
  lemma LookupClientIdempotent(orderedBy: Cell)
    ensures LookupClient(LookupClient(orderedBy)) == LookupClient(orderedBy)
  {
    DarntonClientsWellFormed();
  }

  /** `s.replace('?', '0')`. */
  function ReplaceUnknown(s: string): (r: string)
    ensures |r| == |s| && '?' !in r
    ensures forall i :: 0 <= i < |s| ==> r[i] == (if s[i] == '?' then '0' else s[i])
  {
    seq(|s|, i requires 0 <= i < |s| => if s[i] == '?' then '0' else s[i])
  }

  /** `date[6:10] + '-' + date[3:5] + '-' + date[0:2]` after the `?`s
      become `0`s. */
  function ReshapeDate(date: string): string
  {
    var d := ReplaceUnknown(date);
    Slice(d, 6, 10) + "-" + Slice(d, 3, 5) + "-" + Slice(d, 0, 2)
  }

  /** The reshaped date holds no `?`; from ten characters on it has the
      `YYYY-MM-DD` layout, and a shorter date gives shorter pieces. */
  lemma ReshapeDateSpec(date: string)
    ensures '?' !in ReshapeDate(date)
    ensures |date| >= 10 ==> |ReshapeDate(date)| == 10 && ReshapeDate(date)[4] == '-' && ReshapeDate(date)[7] == '-'
    ensures |date| < 10 ==> |ReshapeDate(date)| < 10
  {
    var d := ReplaceUnknown(date);
    var y := Slice(d, 6, 10);
    var m := Slice(d, 3, 5);
    var day := Slice(d, 0, 2);
    assert ReshapeDate(date) == y + "-" + m + "-" + day;
    forall c | c in y ensures c != '?' {
      var i :| 0 <= i < |y| && y[i] == c;
      assert c == d[6 + i];
    }
    forall c | c in m ensures c != '?' {
      var i :| 0 <= i < |m| && m[i] == c;
      assert c == d[3 + i];
    }
    forall c | c in day ensures c != '?' {
      var i :| 0 <= i < |day| && day[i] == c;
      assert c == d[i];
    }
    assert '?' !in y + "-" + m + "-" + day;
  }

  /** A `DD/MM/YYYY` date (any separators, anything after the year) becomes
      `YYYY-MM-DD` with its unknown digits zeroed. */
  lemma ReshapeDayMonthYear(dd: string, s1: char, mm: string, s2: char, yyyy: string, rest: string)
    requires |dd| == 2 && |mm| == 2 && |yyyy| == 4
    ensures ReshapeDate(dd + [s1] + mm + [s2] + yyyy + rest) ==
              ReplaceUnknown(yyyy) + "-" + ReplaceUnknown(mm) + "-" + ReplaceUnknown(dd)
  {
    var date := dd + [s1] + mm + [s2] + yyyy + rest;
    var d := ReplaceUnknown(date);
    assert Slice(d, 6, 10) == ReplaceUnknown(yyyy);
    assert Slice(d, 3, 5) == ReplaceUnknown(mm);
    assert Slice(d, 0, 2) == ReplaceUnknown(dd);
  }

  /** "1?/03/1778" is read as the tenth of March 1778; an empty cell text
      gives the bare separators. */
  lemma ExampleDates()
    ensures ReshapeDate("1?/03/1778") == "1778-03-10"
    ensures ReshapeDate("") == "--"
  {
    ReshapeDayMonthYear("1?", '/', "03", '/', "1778", "");
    assert "1?" + ['/'] + "03" + ['/'] + "1778" + "" == "1?/03/1778";
    assert ReplaceUnknown("1?") == "10";
    assert ReplaceUnknown("03") == "03";
    assert ReplaceUnknown("1778") == "1778";
  }

  /** The order one row becomes, once its date is known to be text. */
  function OrderOf(row: SampleRow): Order
    requires row.date.Text?
  {
    Order(row.darnId, row.title, row.format, row.volumes, row.author, row.num,
          ReshapeDate(row.date.s), row.longTitle, LookupClient(row.orderedBy), row.notes)
  }

  /** `darnton_data` for the rows, or the first row whose date is not text. */
  function Orders(rows: seq<SampleRow>): Result<seq<Order>, ImportError>
    decreases |rows|
  {
    if rows == [] then Success([])
    else match Orders(rows[..|rows| - 1])
      case Failure(e) => Failure(e)
      case Success(orders) =>
        var row := rows[|rows| - 1];
        if row.date.Text? then Success(orders + [OrderOf(row)]) else Failure(DateNotText(|rows| - 1))
  }

  /** The loop of mpcereform/core.py:723-744. */
  method ImportSample(rows: seq<SampleRow>) returns (r: Result<seq<Order>, ImportError>)
    ensures r == Orders(rows)
  {
    var darntonData: seq<Order> := [];
    var i := 0;
    while i < |rows|
      invariant 0 <= i <= |rows|
      invariant Orders(rows[..i]) == Success(darntonData)
    {
      assert rows[..i + 1][..i] == rows[..i];
      var row := rows[i];
      var orderedBy := row.orderedBy;
      if orderedBy.Text? && orderedBy.s in DarntonClients {
        orderedBy := Text(DarntonClients[orderedBy.s]);
      }
      if !row.date.Text? {
        OrdersFailure(rows, i + 1);
        return Failure(DateNotText(i));
      }
      var date := ReplaceUnknown(row.date.s);
      var day := Slice(date, 0, 2);
      var month := Slice(date, 3, 5);
      var year := Slice(date, 6, 10);
      darntonData := darntonData + [Order(row.darnId, row.title, row.format, row.volumes, row.author, row.num,
                                          year + "-" + month + "-" + day, row.longTitle, orderedBy, row.notes)];
      i := i + 1;
    }
    assert rows[..i] == rows;
    return Success(darntonData);
  }

  /** Once the rows up to k fail, all of them fail the same way. */
  lemma {:induction false} OrdersFailure(rows: seq<SampleRow>, k: nat)
    requires k <= |rows| && Orders(rows[..k]).Failure?
    ensures Orders(rows) == Orders(rows[..k])
    decreases |rows| - k
  {
    if k < |rows| {
      assert rows[..k + 1][..k] == rows[..k];
      OrdersFailure(rows, k + 1);
    } else {
      assert rows[..k] == rows;
    }
  }

  /** The import succeeds exactly when every date cell is text, and then
      gives one order per row, in order. */
  lemma {:induction false} OrdersSpec(rows: seq<SampleRow>)
    ensures Orders(rows).Success? <==> forall i :: 0 <= i < |rows| ==> rows[i].date.Text?
    ensures Orders(rows).Success? ==>
              |Orders(rows).value| == |rows| && forall i :: 0 <= i < |rows| ==> Orders(rows).value[i] == OrderOf(rows[i])
    decreases |rows|
  {
    if rows != [] {
      var init, last := rows[..|rows| - 1], rows[|rows| - 1];
      OrdersSpec(init);
      assert forall i :: 0 <= i < |init| ==> init[i] == rows[i];
      match Orders(init)
      case Failure(e) =>
        assert Orders(rows).Failure?;
      case Success(orders) =>
        if last.date.Text? {
          var r := orders + [OrderOf(last)];
          assert Orders(rows) == Success(r);
          assert forall i :: 0 <= i < |init| ==> r[i] == orders[i];
        }
    }
  }

  /** A failed import names the first row whose date cell is not text. */
  lemma {:induction false} OrdersFirstFailure(rows: seq<SampleRow>)
    ensures Orders(rows).Failure? ==>
              var k := Orders(rows).error.row;
              k < |rows| && !rows[k].date.Text? && forall i :: 0 <= i < k ==> rows[i].date.Text?
    decreases |rows|
  {
    if rows != [] {
      var init := rows[..|rows| - 1];
      OrdersFirstFailure(init);
      assert forall i :: 0 <= i < |init| ==> init[i] == rows[i];
      if Orders(init).Success? {
        OrdersSpec(init);
      }
    }
  }
}
