/**
 * The sale store: an ordered list of sales with registration, and the sales file codec
 * (save and load). The statistics over the list live in module SaleStatistics.
 */
module SaleStore {
  import opened Wrappers
  import opened Text
  import opened Allocation
  import opened SaleModel
  import opened CsvFiles
  import SaleStatistics

  /** The seventh column is written for readers of the file and never read back. */
  const Header: Row := ["saleID", "username", "product", "quantity", "price", "role", "total"]
  const DefaultFileName := "Sales.csv"

  /** The field values of a list of sales, in order. */
  function Snap(ss: seq<Sale>): (r: seq<SaleRec>)
    reads ss
    ensures |r| == |ss| && forall i :: 0 <= i < |ss| ==> r[i] == ss[i].Rec()
  {
    seq(|ss|, i requires 0 <= i < |ss| reads ss => ss[i].Rec())
  }

  function IdsOf(s: seq<SaleRec>): (r: seq<int>)
    ensures |r| == |s| && forall i :: 0 <= i < |s| ==> r[i] == s[i].id
  {
    seq(|s|, i requires 0 <= i < |s| => s[i].id)
  }

  function IdSet(s: seq<SaleRec>): set<int>
  {
    set i | 0 <= i < |s| :: s[i].id
  }

  predicate UniqueIds(s: seq<SaleRec>)
  {
    forall i, j :: 0 <= i < j < |s| ==> s[i].id != s[j].id
  }

  /** A list with distinct ids keeps them distinct when an entry with a new id is appended. */
  lemma UniqueIdsSnoc(s: seq<SaleRec>, x: SaleRec)
    requires UniqueIds(s) && x.id !in IdSet(s)
    ensures UniqueIds(s + [x])
  {
    var t := s + [x];
    forall i, j | 0 <= i < j < |t| ensures t[i].id != t[j].id {
      assert t[i] == s[i];
      if j < |s| {
        assert t[j] == s[j];
      } else {
        assert s[i].id in IdSet(s);
      }
    }
  }

  lemma IdSetSnoc(s: seq<SaleRec>, x: SaleRec)
    ensures IdSet(s + [x]) == IdSet(s) + {x.id}
  {
    var t := s + [x];
    assert forall i :: 0 <= i < |s| ==> t[i] == s[i];
    assert t[|s|] == x;
  }

  lemma LastIdIsNew(s: seq<SaleRec>)
    requires UniqueIds(s) && s != []
    ensures s[|s| - 1].id !in IdSet(s[..|s| - 1])
  {
    var s' := s[..|s| - 1];
    forall i | 0 <= i < |s'| ensures s'[i].id != s[|s| - 1].id {
      assert s'[i] == s[i];
    }
  }

  // ---------------------------------------------------------------- the sales file

  /** The seven cells of a sale's row. Price and total are floats in the original, so they
      are written as `str(float(x))`: the whole number followed by ".0". The last cell is the
      total, price times quantity. */
  function EncodeSale(s: SaleRec): (r: Row)
    ensures |r| == 7 && r[6] == FloatToString(RecTotal(s))
  {
    [IntToString(s.id), s.username, s.product, IntToString(s.quantity), FloatToString(s.price),
     IntToString(s.role), FloatToString(RecTotal(s))]
  }

  /** One row per sale, in list order. */
  function EncodeSales(s: seq<SaleRec>): (r: seq<Row>)
    ensures |r| == |s| && forall i :: 0 <= i < |s| ==> r[i] == EncodeSale(s[i])
  {
    seq(|s|, i requires 0 <= i < |s| => EncodeSale(s[i]))
  }

  lemma EncodeSalesSnoc(s: seq<SaleRec>, x: SaleRec)
    ensures EncodeSales(s + [x]) == EncodeSales(s) + [EncodeSale(x)]
  {
  }

  /** How one data row reads: blank, with fewer than six cells, with an id that is not an
      integer, or with an id and (when quantity, price and role convert too) a sale. */
  datatype SaleRow = Blank | TooFewColumns | BadId | WithId(id: int, sale: Option<SaleRec>)

  /** Only the first six cells are read; any further cell, the total among them, is
      ignored. Quantity and role are read with `int()`, the price with `float()`. */
  function ParseSaleRow(row: Row): (r: SaleRow)
    ensures r.Blank? <==> row == []
    ensures r.TooFewColumns? <==> row != [] && |row| < 6
    ensures r.WithId? && r.sale.Some? ==> r.sale.value.id == r.id
  {
    if row == [] then Blank
    else if |row| < 6 then TooFewColumns
    else
      match ParseInt(row[0])
      case None => BadId
      case Some(id) =>
        WithId(id, match (ParseInt(row[3]), ParseWholeFloat(row[4]), ParseInt(row[5]))
                   case (Some(q), Some(p), Some(role)) => Some(SaleRec(id, row[1], row[2], q, p, role))
                   case _ => None)
  }

  /** The sale a row yields when every conversion succeeds. */
  function FullParse(row: Row): Option<SaleRec>
  {
    match ParseSaleRow(row)
    case WithId(_, s) => s
    case _ => None
  }

  /** A saved row reads back as the sale it was written from. */
  lemma ParseEncodedSale(s: SaleRec)
    ensures ParseSaleRow(EncodeSale(s)) == WithId(s.id, Some(s))
  {
    ParseIntToString(s.id);
    ParseIntToString(s.quantity);
    ParseWholeFloatToString(s.price);
    ParseIntToString(s.role);
  }

  /** The cells after the sixth, the stored total among them, never change how a row
      reads: a row whose total disagrees with price times quantity loads the same sale. */
  lemma TotalColumnIgnored(row: Row, extra: seq<string>)
    requires |row| >= 6
    ensures ParseSaleRow(row[..6] + extra) == ParseSaleRow(row)
  {
    var t := row[..6] + extra;
    assert t[0] == row[0] && t[1] == row[1] && t[2] == row[2];
    assert t[3] == row[3] && t[4] == row[4] && t[5] == row[5];
  }

  /** A row in the form the original writes, price and total as floats, loads as its sale. */
  lemma WrittenRowExample()
    ensures ParseSaleRow(["1", "ana", "pen", "2", "10.0", "3", "20.0"])
         == WithId(1, Some(SaleRec(1, "ana", "pen", 2, 10, 3)))
  {
    var x := SaleRec(1, "ana", "pen", 2, 10, 3);
    ExampleTexts();
    assert EncodeSale(x) == ["1", "ana", "pen", "2", "10.0", "3", "20.0"];
    ParseEncodedSale(x);
  }

  lemma ExampleTexts()
    ensures IntToString(1) == "1" && IntToString(2) == "2" && IntToString(3) == "3"
    ensures FloatToString(10) == "10.0" && FloatToString(20) == "20.0"
  {
    assert NatToString(10) == NatToString(1) + [DigitChar(0)];
    assert NatToString(20) == NatToString(2) + [DigitChar(0)];
  }

  /** The state of a load in progress: the sales so far, the ids taken, the warnings. */
  datatype SaleLoad = SaleLoad(sales: seq<SaleRec>, loaded: set<int>, warnings: seq<Warning>)

  /** One step of the load loop, for the data row on file line `line`. */
  function LoadSaleRow(st: SaleLoad, row: Row, line: nat): (r: SaleLoad)
    ensures st.sales <= r.sales && |r.sales| <= |st.sales| + 1
    ensures st.warnings <= r.warnings
    ensures |r.sales| + |r.warnings| == |st.sales| + |st.warnings| + (if row == [] then 0 else 1)
    ensures |r.sales| == |st.sales| ==> r.loaded == st.loaded
    ensures |r.sales| > |st.sales| ==>
      (r.sales == st.sales + [r.sales[|st.sales|]] && r.sales[|st.sales|].id !in st.loaded
       && r.loaded == st.loaded + {r.sales[|st.sales|].id})
  {
    match ParseSaleRow(row)
    case Blank => st
    case TooFewColumns => st.(warnings := st.warnings + [WrongColumnCount(line)])
    case BadId => st.(warnings := st.warnings + [Unparsable(line)])
    case WithId(id, s) =>
      if id in st.loaded then st.(warnings := st.warnings + [DuplicateId(line, id)])
      else if s.None? then st.(warnings := st.warnings + [Unparsable(line)])
      else SaleLoad(st.sales + [s.value], st.loaded + {id}, st.warnings)
  }

  /** The whole load loop over the data rows; the data row at index `k` is file line
      `k + 2`. */
  function DecodeSales(rows: seq<Row>): SaleLoad
  {
    if rows == [] then SaleLoad([], {}, [])
    else LoadSaleRow(DecodeSales(rows[..|rows| - 1]), rows[|rows| - 1], |rows| + 1)
  }

  lemma LoadStepKeepsIds(st: SaleLoad, row: Row, line: nat)
    requires st.loaded == IdSet(st.sales) && UniqueIds(st.sales)
    ensures var r := LoadSaleRow(st, row, line); r.loaded == IdSet(r.sales) && UniqueIds(r.sales)
  {
    var r := LoadSaleRow(st, row, line);
    if |r.sales| > |st.sales| {
      var x := r.sales[|st.sales|];
      IdSetSnoc(st.sales, x);
      forall i | 0 <= i < |st.sales| ensures st.sales[i].id != x.id {
        assert st.sales[i].id in IdSet(st.sales);
      }
    } else {
      assert r.sales == st.sales;
    }
  }

  /** The loaded-id set is the set of ids loaded, and the loaded ids are pairwise distinct:
      a later row repeating an id never adds a second sale. */
  lemma {:induction false} DecodeKeepsIdsUnique(rows: seq<Row>)
    ensures var st := DecodeSales(rows); st.loaded == IdSet(st.sales) && UniqueIds(st.sales)
  {
    if rows != [] {
      DecodeKeepsIdsUnique(rows[..|rows| - 1]);
      LoadStepKeepsIds(DecodeSales(rows[..|rows| - 1]), rows[|rows| - 1], |rows| + 1);
    }
  }

  /** Every loaded sale is what some row fully parses to. */
  lemma {:induction false} DecodeProvenance(rows: seq<Row>, i: nat)
    requires i < |DecodeSales(rows).sales|
    ensures exists j :: 0 <= j < |rows| && FullParse(rows[j]) == Some(DecodeSales(rows).sales[i])
  {
    var p := rows[..|rows| - 1];
    var prev := DecodeSales(p);
    if i < |prev.sales| {
      DecodeProvenance(p, i);
      var j :| 0 <= j < |p| && FullParse(p[j]) == Some(prev.sales[i]);
      assert rows[j] == p[j];
    } else {
      assert FullParse(rows[|rows| - 1]) == Some(DecodeSales(rows).sales[i]);
    }
  }

  /** A sale from the first row that fully parses with its id is always loaded: a later
      row with the same id never displaces it, and an earlier row with that id which failed
      to convert does not block it. */
  lemma {:induction false} DecodeKeepsFirst(rows: seq<Row>, k: nat, x: SaleRec)
    requires k < |rows| && FullParse(rows[k]) == Some(x)
    requires forall j :: 0 <= j < k && FullParse(rows[j]).Some? ==> FullParse(rows[j]).value.id != x.id
    ensures x in DecodeSales(rows).sales
  {
    var p := rows[..|rows| - 1];
    var prev := DecodeSales(p);
    if k == |rows| - 1 {
      DecodeKeepsIdsUnique(p);
      forall i | 0 <= i < |prev.sales| ensures prev.sales[i].id != x.id {
        DecodeProvenance(p, i);
        var j :| 0 <= j < |p| && FullParse(p[j]) == Some(prev.sales[i]);
        assert rows[j] == p[j];
      }
      assert x.id !in prev.loaded;
      assert ParseSaleRow(rows[k]) == WithId(x.id, Some(x));
    } else {
      DecodeKeepsFirst(p, k, x);
    }
  }

  /** The load loop's step: the first `i + 1` rows decode as the first `i` followed by row
      `i`, which is file line `i + 2`. */
  lemma DecodeStep(rows: seq<Row>, i: nat)
    requires i < |rows|
    ensures DecodeSales(rows[..i + 1]) == LoadSaleRow(DecodeSales(rows[..i]), rows[i], i + 2)
  {
    assert rows[..i + 1][..i] == rows[..i];
  }

  /** The number of blank rows. */
  function Blanks(rows: seq<Row>): nat
  {
    if rows == [] then 0 else Blanks(rows[..|rows| - 1]) + (if rows[|rows| - 1] == [] then 1 else 0)
  }

  /** Every non-blank row either loads a sale or yields exactly one warning. */
  lemma {:induction false} DecodeAccounting(rows: seq<Row>)
    ensures |DecodeSales(rows).sales| + |DecodeSales(rows).warnings| + Blanks(rows) == |rows|
  {
    if rows != [] {
      DecodeAccounting(rows[..|rows| - 1]);
    }
  }

  /** Loading a file with more rows appended keeps everything the shorter file loads, in
      the same order, at the front. */
  lemma {:induction false} DecodePrefix(a: seq<Row>, b: seq<Row>)
    ensures DecodeSales(a).sales <= DecodeSales(a + b).sales
    decreases |b|
  {
    if b == [] {
      assert a + b == a;
    } else {
      var b' := b[..|b| - 1];
      assert (a + b)[..|a + b| - 1] == a + b';
      DecodePrefix(a, b');
    }
  }

  /** Loading what save wrote gives back the same sales with no warning, when the ids are
      pairwise distinct. */
  lemma {:induction false} DecodeEncodeSales(s: seq<SaleRec>)
    requires UniqueIds(s)
    ensures DecodeSales(EncodeSales(s)) == SaleLoad(s, IdSet(s), [])
  {
    if s != [] {
      var s' := s[..|s| - 1];
      var last := s[|s| - 1];
      assert s == s' + [last];
      assert UniqueIds(s') && last.id !in IdSet(s') by {
        LastIdIsNew(s);
      }
      DecodeEncodeSales(s');
      DecodeEncodeStep(s', last);
    }
  }

  /** One more record with a new id adds exactly that record to what the saved rows load. */
  lemma DecodeEncodeStep(s: seq<SaleRec>, x: SaleRec)
    requires DecodeSales(EncodeSales(s)) == SaleLoad(s, IdSet(s), [])
    requires x.id !in IdSet(s)
    ensures DecodeSales(EncodeSales(s + [x])) == SaleLoad(s + [x], IdSet(s + [x]), [])
  {
    var rows := EncodeSales(s + [x]);
    EncodeSalesSnoc(s, x);
    assert rows[..|rows| - 1] == EncodeSales(s);
    assert DecodeSales(rows) == LoadSaleRow(DecodeSales(EncodeSales(s)), EncodeSale(x), |rows| + 1);
    LoadFreshRow(s, x, |rows| + 1);
  }

  /** The row written for a record whose id is new is loaded as that record. */
  lemma LoadFreshRow(s: seq<SaleRec>, x: SaleRec, line: nat)
    requires x.id !in IdSet(s)
    ensures LoadSaleRow(SaleLoad(s, IdSet(s), []), EncodeSale(x), line) == SaleLoad(s + [x], IdSet(s + [x]), [])
  {
    ParseEncodedSale(x);
    IdSetSnoc(s, x);
  }

  /** The round trip holds exactly when the ids are pairwise distinct. */
  lemma RoundTripIff(s: seq<SaleRec>)
    ensures DecodeSales(EncodeSales(s)).sales == s <==> UniqueIds(s)
  {
    if UniqueIds(s) {
      DecodeEncodeSales(s);
    } else {
      DecodeKeepsIdsUnique(EncodeSales(s));
    }
  }

  /** What a load leaves in the store: the current sales when the file is missing or has
      no rows at all, otherwise the sales decoded from the rows after the header. */
  function LoadedSales(fs: FileSystem, path: string, current: seq<SaleRec>): seq<SaleRec>
  {
    if path !in fs || fs[path] == [] then current else DecodeSales(fs[path][1..]).sales
  }

  /** Saving in overwrite mode and then loading from the path written reproduces the sales,
      when their ids are pairwise distinct, whatever the store held before the load. */
  lemma SaveThenLoad(fs: FileSystem, p: string, s: seq<SaleRec>, current: seq<SaleRec>)
    requires UniqueIds(s)
    ensures var path := ResolvePath(p, DefaultFileName);
      LoadedSales(WriteCsv(fs, path, false, Header, EncodeSales(s)), path, current) == s
  {
    var path := ResolvePath(p, DefaultFileName);
    var fs' := WriteCsv(fs, path, false, Header, EncodeSales(s));
    assert fs'[path][1..] == EncodeSales(s);
    DecodeEncodeSales(s);
  }

  /** Appending to an existing file never loses or reorders what loading it gave before. */
  lemma AppendKeepsLoaded(fs: FileSystem, path: string, rows: seq<Row>, current: seq<SaleRec>)
    requires path in fs && fs[path] != []
    ensures LoadedSales(fs, path, current) <= LoadedSales(WriteCsv(fs, path, true, Header, rows), path, current)
  {
    var fs' := WriteCsv(fs, path, true, Header, rows);
    assert fs'[path][1..] == fs[path][1..] + rows;
    DecodePrefix(fs[path][1..], rows);
  }

  // ---------------------------------------------------------------- the store

  class SaleService {
    var sales: seq<Sale>
    /** The sale id counter, shared by every construction of a sale. */
    const ids: Allocator

    /** The counter is consistent, no sale object appears twice, every stored id is below
        the counter, and no two stored sales share an id. */
    ghost predicate Valid()
      reads this, ids, sales
    {
      ids.Valid()
      && (forall i, j :: 0 <= i < j < |sales| ==> sales[i] != sales[j])
      && (forall i :: 0 <= i < |sales| ==> sales[i].saleID < ids.next)
      && UniqueIds(Snapshot())
    }

    function Snapshot(): seq<SaleRec>
      reads this, sales
    {
      Snap(sales)
    }

    /** The store starts empty. */
    constructor (ids: Allocator)
      requires ids.Valid()
      ensures Valid() && this.ids == ids && sales == []
    {
      this.ids := ids;
      sales := [];
    }

    /** One more than the largest id stored, or 1 for an empty store. */
    function NextId(): (r: int)
      reads this, sales
      ensures forall i :: 0 <= i < |sales| ==> sales[i].saleID < r
      ensures sales == [] ==> r == 1
      ensures sales != [] ==> exists i :: 0 <= i < |sales| && sales[i].saleID == r - 1
    {
      var s := Snapshot();
      assert forall i :: 0 <= i < |sales| ==> IdsOf(s)[i] == sales[i].saleID;
      NextAfter(IdsOf(s))
    }

    /** Always registers the sale, with id `NextId()`, at the end of the list, and returns
        it. */
    method AddSale(username: string, product: string, quantity: int, price: int, role: int)
      returns (sale: Sale)
      requires Valid()
      modifies this, ids
      ensures Valid()
      ensures fresh(sale) && sales == old(sales) + [sale]
      ensures Snapshot() == old(Snapshot()) + [SaleRec(old(NextId()), username, product, quantity, price, role)]
      ensures sale.Total() == price * quantity
    {
      var sid := NextId();
      sale := Append(SaleRec(sid, username, product, quantity, price, role));
      assert sale.Rec() == Snapshot()[|sales| - 1];
    }

    /** Nothing to report for an empty store; otherwise revenue, items sold and the
        three most frequent products and buyers, over the sales in list order. */
    method DisplayStatistics() returns (report: Option<SaleStatistics.Report>)
      ensures report.None? <==> sales == []
      ensures report == SaleStatistics.Statistics(Snapshot())
    {
      if sales == [] {
        return None;
      }
      report := SaleStatistics.Statistics(Snapshot());
    }

    /** Writes the sales file: the header when the file is new or append is off, then one
        row per sale in list order. */
    method SaveCSV(fs: FileSystem, filePath: string, append: bool) returns (out: FileSystem)
      ensures out == WriteCsv(fs, ResolvePath(filePath, DefaultFileName), append, Header,
                              EncodeSales(Snapshot()))
    {
      var path := ResolvePath(filePath, DefaultFileName);
      var newFile := path !in fs;
      var content: seq<Row> := [];
      if append && !newFile {
        content := fs[path];
      }
      if newFile || !append {
        content := content + [Header];
      }
      assert content == if append && path in fs then fs[path] else [Header];
      content := WriteRows(content);
      out := fs[path := content];
    }

    /** The row loop of the save: one row per sale, in list order, after `content`. */
    method WriteRows(content0: seq<Row>) returns (content: seq<Row>)
      ensures content == content0 + EncodeSales(Snapshot())
    {
      content := content0;
      ghost var s := Snapshot();
      var i := 0;
      while i < |sales|
        invariant 0 <= i <= |sales|
        invariant content == content0 + EncodeSales(s[..i])
      {
        var row := EncodeSale(sales[i].Rec());
        assert s[..i + 1] == s[..i] + [s[i]];
        EncodeSalesSnoc(s[..i], s[i]);
        content := content + [row];
        i := i + 1;
      }
      assert s[..i] == s;
    }

    /** Constructs a sale with the given field values, its id taken as given, and appends
        it to the list. */
    method Append(r: SaleRec) returns (sale: Sale)
      requires Valid() && r.id !in IdSet(Snap(sales))
      modifies this, ids
      ensures Valid()
      ensures fresh(sale) && sales == old(sales) + [sale]
      ensures Snap(sales) == old(Snap(sales)) + [r]
    {
      ghost var before := Snap(sales);
      sale := new Sale(ids, r.username, r.product, r.quantity, r.price, r.role, Some(r.id));
      assert Snap(sales) == before;
      sales := sales + [sale];
      assert Snap(sales) == before + [r];
      UniqueIdsSnoc(before, r);
    }

    /** One pass of the load loop: the data row on file line `line`. */
    method LoadRow(row: Row, line: nat, loaded0: set<int>, warnings0: seq<Warning>)
      returns (loaded: set<int>, warnings: seq<Warning>)
      requires Valid() && loaded0 == IdSet(Snap(sales))
      modifies this, ids
      ensures Valid()
      ensures SaleLoad(Snap(sales), loaded, warnings)
              == LoadSaleRow(SaleLoad(old(Snap(sales)), loaded0, warnings0), row, line)
    {
      ghost var st := SaleLoad(Snap(sales), loaded0, warnings0);
      loaded, warnings := loaded0, warnings0;
      match ParseSaleRow(row) {
        case Blank =>
        case TooFewColumns =>
          warnings := warnings + [WrongColumnCount(line)];
          assert LoadSaleRow(st, row, line) == st.(warnings := warnings);
        case BadId =>
          warnings := warnings + [Unparsable(line)];
          assert LoadSaleRow(st, row, line) == st.(warnings := warnings);
        case WithId(id, rec) =>
          if id in loaded {
            warnings := warnings + [DuplicateId(line, id)];
            assert LoadSaleRow(st, row, line) == st.(warnings := warnings);
          } else if rec.None? {
            warnings := warnings + [Unparsable(line)];
            assert LoadSaleRow(st, row, line) == st.(warnings := warnings);
          } else {
            var r := rec.value;
            var _ := Append(r);
            loaded := loaded + {id};
            assert LoadSaleRow(st, row, line) == SaleLoad(st.sales + [r], loaded, warnings);
          }
      }
    }

    /** The load loop: the sales become those decoded from the data rows. */
    method LoadRows(data: seq<Row>) returns (warnings: seq<Warning>)
      requires ids.Valid()
      modifies this, ids
      ensures Valid()
      ensures Snapshot() == DecodeSales(data).sales && warnings == DecodeSales(data).warnings
    {
      sales := [];
      var loaded: set<int> := {};
      warnings := [];
      var i := 0;
      assert data[..0] == [];
      while i < |data|
        invariant 0 <= i <= |data|
        invariant Valid()
        invariant DecodeSales(data[..i]) == SaleLoad(Snap(sales), loaded, warnings)
      {
        DecodeStep(data, i);
        DecodeKeepsIdsUnique(data[..i]);
        loaded, warnings := LoadRow(data[i], i + 2, loaded, warnings);
        i := i + 1;
      }
      assert data[..|data|] == data;
    }

    /** Replaces the sales by those decoded from the file; a missing or completely empty
        file leaves the store as it was. Returns the warnings printed. */
    method LoadCSV(fs: FileSystem, filePath: string) returns (warnings: seq<Warning>)
      requires Valid()
      modifies this, ids
      ensures Valid()
      ensures Snapshot() == LoadedSales(fs, filePath, old(Snapshot()))
      ensures filePath !in fs || fs[filePath] == [] ==>
        sales == old(sales) && warnings == [] && ids.next == old(ids.next)
      ensures filePath in fs && fs[filePath] != [] ==>
        warnings == DecodeSales(fs[filePath][1..]).warnings
    {
      if filePath !in fs {
        return [];
      }
      var lines := fs[filePath];
      if lines == [] {
        return [];
      }
      warnings := LoadRows(lines[1..]);
    }

    /** Saving in overwrite mode and loading the file just written leaves the sales as they
        were, with no warnings: the ids of a store are always distinct. */
    method SaveThenLoadCSV(fs: FileSystem, filePath: string) returns (out: FileSystem, warnings: seq<Warning>)
      requires Valid()
      modifies this, ids
      ensures Valid()
      ensures out == WriteCsv(fs, ResolvePath(filePath, DefaultFileName), false, Header,
                              EncodeSales(old(Snapshot())))
      ensures Snapshot() == old(Snapshot()) && warnings == []
    {
      ghost var s := Snapshot();
      out := SaveCSV(fs, filePath, false);
      var path := ResolvePath(filePath, DefaultFileName);
      warnings := LoadCSV(out, path);
      assert out[path][1..] == EncodeSales(s);
      DecodeEncodeSales(s);
    }
  }
}
