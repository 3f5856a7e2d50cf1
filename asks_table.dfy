/**
 * The row logic of the open-asks table (`AsksTable.tsx`): filtering and
 * paginating the asks, turning each order of the page into a table row
 * (device type prefix, filled percentage, ask id), and looking an ask up
 * again by the id a row carries when the user views or removes it.
 *
 * The record filter of the table library is foreign; it is the predicate
 * `passes`, and whether the device lookup finds the order's device is the
 * predicate `deviceFound`. Formatting and translations are not modelled.
 */
module AsksTable {
  import opened Wrappers
  import opened Arith

  const DeviceTypeSeparator: char := ';'
  /** A big number's `toNumber()` throws unless its magnitude is below 2^53. */
  const SafeNumberBound: int := 0x20_0000_0000_0000

  datatype Product = Product(deviceType: seq<string>, generationFrom: int, generationTo: int, externalDeviceId: string)

  datatype Order = Order(id: string, startVolume: int, currentVolume: int, price: int, product: Product)

  /** What `getPaginatedData` resolves to. */
  datatype Page = Page(paginatedData: seq<Order>, total: int)

  /** The modelled columns of a table row. */
  datatype Row = Row(deviceType: string, filled: int, askId: string)

  function Min(a: int, b: int): int { if a <= b then a else b }
  function Max(a: int, b: int): int { if a >= b then a else b }

  // ---------------------------------------------------------------------------
  // Filtering and pagination
  // ---------------------------------------------------------------------------

  /** `asks.filter(passes)`. */
  function Filter(asks: seq<Order>, passes: Order -> bool): (r: seq<Order>)
    ensures |r| <= |asks|
    ensures forall k :: 0 <= k < |r| ==> passes(r[k])
  {
    if asks == [] then []
    else if passes(asks[0]) then [asks[0]] + Filter(asks[1..], passes)
    else Filter(asks[1..], passes)
  }

  /** The filter keeps every passing ask as often as it occurs and nothing else. */
  lemma {:induction false} FilterExactly(asks: seq<Order>, passes: Order -> bool)
    ensures forall o :: multiset(Filter(asks, passes))[o] == if passes(o) then multiset(asks)[o] else 0
    ensures forall o :: o in Filter(asks, passes) <==> o in asks && passes(o)
  {
    if asks != [] {
      FilterExactly(asks[1..], passes);
      assert asks == [asks[0]] + asks[1..];
    }
  }

  /** The filter keeps the original order: it distributes over concatenation. */
  lemma {:induction false} FilterAppend(a: seq<Order>, b: seq<Order>, passes: Order -> bool)
    ensures Filter(a + b, passes) == Filter(a, passes) + Filter(b, passes)
  {
    if a == [] {
      assert a + b == b;
    } else {
      assert (a + b)[0] == a[0];
      assert (a + b)[1..] == a[1..] + b;
      FilterAppend(a[1..], b, passes);
    }
  }

  /** Where `Array.prototype.slice` starts or stops for a relative index: counted
      from the end when negative, clamped to `[0, len]`. */
  function SliceIndex(relative: int, len: nat): (k: nat)
    ensures k <= len
    ensures 0 <= relative ==> k == Min(relative, len)
    ensures relative < 0 ==> k == Max(len + relative, 0)
  {
    if relative < 0 then (if len + relative < 0 then 0 else len + relative)
    else if relative < len then relative else len
  }

  /** `s.slice(start, end)`: for non-negative bounds, the elements from `start`
      up to but excluding `end`, both cut off at the length. */
  function JsSlice<T>(s: seq<T>, start: int, end: int): (r: seq<T>)
    ensures |r| <= |s|
    ensures 0 <= start && 0 <= end ==> |r| == Max(Min(end, |s|) - Min(start, |s|), 0)
    ensures 0 <= start ==> forall k :: 0 <= k < |r| ==> start + k < |s| && r[k] == s[start + k]
  {
    var k, f := SliceIndex(start, |s|), SliceIndex(end, |s|);
    if k <= f then s[k..f] else []
  }

  /** The loader callback: filter the asks, return the page starting at `offset`
      (at most `requestedPageSize` of them) and the number that passed. */
  function GetPaginatedData(asks: seq<Order>, passes: Order -> bool, requestedPageSize: int, offset: int): (p: Page)
    ensures p.total == |Filter(asks, passes)|
    ensures forall k :: 0 <= k < |p.paginatedData| ==> passes(p.paginatedData[k])
    ensures 0 <= offset && 0 <= requestedPageSize ==>
      && |p.paginatedData| == Min(requestedPageSize, Max(p.total - offset, 0))
      && forall k :: 0 <= k < |p.paginatedData| ==>
           offset + k < p.total && p.paginatedData[k] == Filter(asks, passes)[offset + k]
    ensures offset >= p.total ==> p.paginatedData == []
  {
    var filteredBids := Filter(asks, passes);
    Page(JsSlice(filteredBids, offset, offset + requestedPageSize), |filteredBids|)
  }

  /** Every ask on a page is one of the asks given to the table. */
  lemma PageFromAsks(asks: seq<Order>, passes: Order -> bool, requestedPageSize: int, offset: int)
    ensures forall o :: o in GetPaginatedData(asks, passes, requestedPageSize, offset).paginatedData ==> o in asks
  {
    FilterExactly(asks, passes);
  }

  /** Two adjacent pages together are the page that spans both: paging loses
      and repeats nothing. */
  lemma AdjacentPages(asks: seq<Order>, passes: Order -> bool, offset: int, n: int, m: int)
    requires 0 <= offset && 0 <= n && 0 <= m
    ensures GetPaginatedData(asks, passes, n, offset).paginatedData
          + GetPaginatedData(asks, passes, m, offset + n).paginatedData
         == GetPaginatedData(asks, passes, n + m, offset).paginatedData
  {
    var s := Filter(asks, passes);
    var a, b, c := SliceIndex(offset, |s|), SliceIndex(offset + n, |s|), SliceIndex(offset + n + m, |s|);
    assert s[a..b] + s[b..c] == s[a..c];
  }

  // ---------------------------------------------------------------------------
  // Row columns
  // ---------------------------------------------------------------------------

  /** `s.split(c)[0]`: the part of `s` before the first `c`, or all of `s`. */
  function BeforeFirst(s: string, c: char): (r: string)
    ensures r <= s
    ensures c !in r
    ensures c !in s ==> r == s
    ensures c in s ==> |r| < |s| && s[|r|] == c
  {
    if s == [] then ""
    else if s[0] == c then ""
    else [s[0]] + BeforeFirst(s[1..], c)
  }

  /** The `device_type` column: the first device type up to its first `;`.
      `None` when the order has no device type (the source then throws). */
  function DeviceTypeLabel(deviceType: seq<string>): (r: Option<string>)
    ensures r.None? <==> deviceType == []
    ensures r.Some? ==> r.value <= deviceType[0] && DeviceTypeSeparator !in r.value
    ensures r.Some? && DeviceTypeSeparator !in deviceType[0] ==> r.value == deviceType[0]
    ensures r.Some? && DeviceTypeSeparator in deviceType[0] ==>
      |r.value| < |deviceType[0]| && deviceType[0][|r.value|] == DeviceTypeSeparator
  {
    if deviceType == [] then None else Some(BeforeFirst(deviceType[0], DeviceTypeSeparator))
  }

  function Abs(x: int): nat { if x < 0 then -x else x }

  /** Big-number division: the quotient truncated toward zero. */
  function TruncDiv(n: int, d: int): (q: int)
    requires d != 0
    ensures Abs(q) * Abs(d) <= Abs(n) < (Abs(q) + 1) * Abs(d)
    ensures q == 0 || (q > 0 <==> (n > 0 <==> d > 0))
  {
    var m := Abs(n) / Abs(d);
    DivFloor(Abs(n), Abs(d));
    var q := if (n >= 0) == (d > 0) then m else -m;
    assert Abs(q) == m;
    q
  }

  /** For a start volume above a current volume that is not negative, the
      truncated percentage is its floor: between 0 and 100, 0 when nothing is
      filled and 100 when all is. */
  lemma FloorPercent(startVolume: int, currentVolume: int)
    ensures 0 <= currentVolume <= startVolume && startVolume > 0 ==>
      var p := TruncDiv((startVolume - currentVolume) * 100, startVolume);
      && 0 <= p <= 100
      && p * startVolume <= (startVolume - currentVolume) * 100 < (p + 1) * startVolume
      && (currentVolume == startVolume ==> p == 0)
      && (currentVolume == 0 ==> p == 100)
  {
    if 0 <= currentVolume <= startVolume && startVolume > 0 {
      var n := (startVolume - currentVolume) * 100;
      assert 0 <= n <= 100 * startVolume by {
        MulMonotone(startVolume - currentVolume, startVolume, 100);
      }
      var p := n / startVolume;
      assert TruncDiv(n, startVolume) == p;
      DivFloor(n, startVolume);
      if p > 100 {
        MulMonotone(101, p, startVolume);
      }
      if p < 0 {
        MulMonotone(p + 1, 0, startVolume);
      }
      if currentVolume == 0 && p < 100 {
        MulMonotone(p + 1, 100, startVolume);
      }
    }
  }

  /** The integer part of the `filled` column: `(start - current) * 100 / start`
      before the final division by 100 for display. `None` when the start volume
      is 0, where the big-number division throws, and when the quotient is too
      large for `toNumber()`. For a partly filled order it is the floor of the
      filled percentage, between 0 and 100. */
  function Filled(startVolume: int, currentVolume: int): (r: Option<int>)
    ensures startVolume == 0 ==> r.None?
    ensures startVolume != 0 ==>
      (r.None? <==> Abs(TruncDiv((startVolume - currentVolume) * 100, startVolume)) >= SafeNumberBound)
    ensures r.Some? ==> Abs(r.value) < SafeNumberBound
    ensures 0 <= currentVolume <= startVolume && startVolume > 0 ==>
      && r.Some?
      && 0 <= r.value <= 100
      && r.value * startVolume <= (startVolume - currentVolume) * 100 < (r.value + 1) * startVolume
      && (currentVolume == startVolume ==> r.value == 0)
      && (currentVolume == 0 ==> r.value == 100)
  {
    if startVolume == 0 then None
    else
      var q := TruncDiv((startVolume - currentVolume) * 100, startVolume);
      FloorPercent(startVolume, currentVolume);
      if Abs(q) >= SafeNumberBound then None else Some(q)
  }

  /** Less volume left never shows less filled. */
  lemma FilledMonotone(startVolume: int, c1: int, c2: int)
    requires 0 <= c1 <= c2 <= startVolume && startVolume > 0
    ensures Filled(startVolume, c1).Some? && Filled(startVolume, c2).Some?
    ensures Filled(startVolume, c1).value >= Filled(startVolume, c2).value
  {
    var p1, p2 := Filled(startVolume, c1).value, Filled(startVolume, c2).value;
    assert (startVolume - c2) * 100 <= (startVolume - c1) * 100;
    if p1 < p2 {
      MulMonotone(p1 + 1, p2, startVolume);
    }
  }

  // ---------------------------------------------------------------------------
  // Rows
  // ---------------------------------------------------------------------------

  /** An order whose row can be built without throwing: the device lookup finds
      its device, it has a device type, its start volume is not 0, and the filled
      quotient is small enough for `toNumber()`. */
  predicate Renderable(o: Order, deviceFound: string -> bool)
  {
    && deviceFound(o.product.externalDeviceId)
    && o.product.deviceType != []
    && o.startVolume != 0
    && Abs(TruncDiv((o.startVolume - o.currentVolume) * 100, o.startVolume)) < SafeNumberBound
  }

  /** A partly filled order with a known device and a device type always gets a row. */
  lemma PartlyFilledIsRenderable(o: Order, deviceFound: string -> bool)
    requires deviceFound(o.product.externalDeviceId) && o.product.deviceType != []
    requires 0 <= o.currentVolume <= o.startVolume && o.startVolume > 0
    ensures BuildRow(o, deviceFound).Some?
  {
    assert Filled(o.startVolume, o.currentVolume).Some?;
  }

  /** One row of `paginatedData.map(...)`; `None` where building it throws. */
  function BuildRow(o: Order, deviceFound: string -> bool): (r: Option<Row>)
    ensures r.Some? <==> Renderable(o, deviceFound)
    ensures r.Some? ==> r.value.askId == o.id
  {
    if !deviceFound(o.product.externalDeviceId) then None
    else match (DeviceTypeLabel(o.product.deviceType), Filled(o.startVolume, o.currentVolume))
    case (Some(deviceType), Some(filled)) => Some(Row(deviceType, filled, o.id))
    case _ => None
  }

  /** `paginatedData.map(...)`: one row per order of the page, in order, each
      carrying its order's id; `None` when some order would make the map throw. */
  function BuildRows(page: seq<Order>, deviceFound: string -> bool): (r: Option<seq<Row>>)
    ensures r.Some? <==> forall k :: 0 <= k < |page| ==> Renderable(page[k], deviceFound)
    ensures r.Some? ==> |r.value| == |page|
    ensures r.Some? ==> forall k :: 0 <= k < |page| ==>
      && r.value[k].askId == page[k].id
      && Some(r.value[k].deviceType) == DeviceTypeLabel(page[k].product.deviceType)
      && Some(r.value[k].filled) == Filled(page[k].startVolume, page[k].currentVolume)
  {
    if page == [] then Some([])
    else
      match (BuildRow(page[0], deviceFound), BuildRows(page[1..], deviceFound))
      case (Some(row), Some(rest)) => Some([row] + rest)
      case _ => None
  }

  // ---------------------------------------------------------------------------
  // Looking an ask up by a row's id
  // ---------------------------------------------------------------------------

  /** `asks.find((o) => o.id === id)`. */
  function FindById(asks: seq<Order>, id: string): (r: Option<Order>)
    ensures r.None? <==> forall k :: 0 <= k < |asks| ==> asks[k].id != id
    ensures r.Some? ==> exists k :: 0 <= k < |asks| && asks[k] == r.value && r.value.id == id
                                    && forall j :: 0 <= j < k ==> asks[j].id != id
  {
    if asks == [] then None
    else if asks[0].id == id then Some(asks[0])
    else FindById(asks[1..], id)
  }

  /** A row of the shown page always finds an ask with its id among the asks
      given to the table. */
  lemma RowLookupFindsAsk(asks: seq<Order>, passes: Order -> bool, deviceFound: string -> bool,
                          requestedPageSize: int, offset: int, rowIndex: int)
    requires BuildRows(GetPaginatedData(asks, passes, requestedPageSize, offset).paginatedData, deviceFound).Some?
    requires 0 <= rowIndex < |BuildRows(GetPaginatedData(asks, passes, requestedPageSize, offset).paginatedData, deviceFound).value|
    ensures var rows := BuildRows(GetPaginatedData(asks, passes, requestedPageSize, offset).paginatedData, deviceFound).value;
      FindById(asks, rows[rowIndex].askId).Some?
      && FindById(asks, rows[rowIndex].askId).value.id == rows[rowIndex].askId
  {
    var page := GetPaginatedData(asks, passes, requestedPageSize, offset).paginatedData;
    var rows := BuildRows(page, deviceFound).value;
    PageFromAsks(asks, passes, requestedPageSize, offset);
    assert page[rowIndex] in page;
    var k :| 0 <= k < |asks| && asks[k] == page[rowIndex];
    assert asks[k].id == rows[rowIndex].askId;
  }

  /** The table's component state: the ask shown in the details dialog and the
      ask awaiting removal confirmation. */
  class AskSelection {
    var askToView: Option<Order>
    var askToRemove: Option<Order>

    constructor ()
      ensures askToView == None && askToRemove == None
    {
      askToView := None;
      askToRemove := None;
    }

    /** `viewDetails(rowIndex)`. An index outside the rows throws in the source;
        here it reports `false` and changes nothing. */
    method ViewDetails(asks: seq<Order>, rows: seq<Row>, rowIndex: int) returns (ok: bool)
      modifies this
      ensures ok <==> 0 <= rowIndex < |rows|
      ensures askToView == if ok then FindById(asks, rows[rowIndex].askId) else old(askToView)
      ensures askToRemove == old(askToRemove)
    {
      ok := 0 <= rowIndex < |rows|;
      if ok {
        var askId := rows[rowIndex].askId;
        askToView := FindById(asks, askId);
      }
    }

    /** `removeAsk(rowIndex)`, the same lookup feeding the removal confirmation. */
    method RemoveAsk(asks: seq<Order>, rows: seq<Row>, rowIndex: int) returns (ok: bool)
      modifies this
      ensures ok <==> 0 <= rowIndex < |rows|
      ensures askToRemove == if ok then FindById(asks, rows[rowIndex].askId) else old(askToRemove)
      ensures askToView == old(askToView)
    {
      ok := 0 <= rowIndex < |rows|;
      if ok {
        var askId := rows[rowIndex].askId;
        askToRemove := FindById(asks, askId);
      }
    }

    /** Closing the details dialog: `setToView(null)`. */
    method CloseDetails()
      modifies this
      ensures askToView == None && askToRemove == old(askToRemove)
    {
      askToView := None;
    }

    /** Closing the removal confirmation: `setToRemove(null)`. */
    method CloseRemoval()
      modifies this
      ensures askToRemove == None && askToView == old(askToView)
    {
      askToRemove := None;
    }
  }
}
