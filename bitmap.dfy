/** bitmap/bitmap.go: a sparse bitmap. Bits are numbered from 1; bit n lives in a lazily allocated
    page of `PageSize` bytes, and the pages are kept in a list that `getPage` searches and splices. */
module Bitmap {
  import opened Common

  const BitsPerByte: nat := 8
  /** The platform page size; `os.Getpagesize()` is 4096 on the platforms the tests assume. */
  const PageSize: nat := 4096
  const BitsPerPage: nat := BitsPerByte * PageSize

  /** The options of a bitmap (bitmap/bitmap.go:24-34). */
  datatype Option = Option(autoExpand: bool, autoRecycle: bool, capacity: i64)

  /** `NewOption` (bitmap/bitmap.go:61-67): the three settings, in the record's own order. */
  function NewOption(capacity: i64, autoExpand: bool, autoRecycle: bool): (o: Option)
    ensures o.capacity == capacity && o.autoExpand == autoExpand && o.autoRecycle == autoRecycle
  {
    Option(autoExpand, autoRecycle, capacity)
  }

  /** The first test of `getPage`: with AutoExpand off, a bit beyond the capacity is refused. */
  predicate Gated(o: Option, n: int)
  {
    n > o.capacity && !o.autoExpand
  }

  // ---------------------------------------------------------------------------------------------
  // Addressing a bit
  // ---------------------------------------------------------------------------------------------

  /** `getPageIndex` (bitmap/bitmap.go:93-99): the page holding bit n, pages covering
      `BitsPerPage` consecutive bits each. */
  function PageIndex(n: int): (r: int)
    requires n >= 1
    ensures r == (n - 1) / BitsPerPage
    ensures 0 <= r && r * BitsPerPage < n <= (r + 1) * BitsPerPage
  {
    if n % BitsPerPage != 0 then n / BitsPerPage else n / BitsPerPage - 1
  }

  /** The byte of its page that holds bit n (bitmap/bitmap.go:146, bitmap.go:173). */
  function ByteIndex(n: int): (r: nat)
    requires n >= 1
    ensures r < PageSize
  {
    (n - 1) % BitsPerPage / BitsPerByte
  }

  /** The bit of that byte that holds bit n (bitmap/bitmap.go:148, bitmap.go:174). */
  function BitIndex(n: int): (r: nat)
    requires n >= 1
    ensures r < BitsPerByte && r == (n - 1) % BitsPerByte
  {
    (n - 1) % BitsPerPage % BitsPerByte
  }

  /** The one-bit mask `1 << uint8((n-1)%bitsPerPage%bitsPerByte)`. */
  function Mask(n: int): bv8
    requires n >= 1
  {
    (1 as bv8) << BitIndex(n)
  }

  /** Bit n is numbered by its page, byte and bit; different bits have different addresses. */
  lemma AddressOf(n: int, m: int)
    requires n >= 1 && m >= 1
    ensures n - 1 == PageIndex(n) * BitsPerPage + ByteIndex(n) * BitsPerByte + BitIndex(n)
    ensures (PageIndex(n), ByteIndex(n), BitIndex(n)) == (PageIndex(m), ByteIndex(m), BitIndex(m))
      <==> n == m
  {
    assert n - 1 == PageIndex(n) * BitsPerPage + ByteIndex(n) * BitsPerByte + BitIndex(n);
    assert m - 1 == PageIndex(m) * BitsPerPage + ByteIndex(m) * BitsPerByte + BitIndex(m);
  }

  /** A bit set in a byte is seen by the test, a cleared one is not, and the other seven bits of
      the byte are left as they were. */
  lemma MaskFacts(b: bv8, j: nat, k: nat)
    requires j < 8 && k < 8
    ensures (b | ((1 as bv8) << k)) & ((1 as bv8) << k) > 0
    ensures (b & !((1 as bv8) << k)) & ((1 as bv8) << k) == 0
    ensures j != k ==> (b | ((1 as bv8) << k)) & ((1 as bv8) << j) == b & ((1 as bv8) << j)
    ensures j != k ==> (b & !((1 as bv8) << k)) & ((1 as bv8) << j) == b & ((1 as bv8) << j)
  {
  }

  // ---------------------------------------------------------------------------------------------
  // Abstract state
  // ---------------------------------------------------------------------------------------------

  /** A page as a value: its id, its counter and its bytes (bitmap/bitmap.go:55-59). */
  datatype PageState = PageState(id: i64, size: i64, bits: seq<bv8>)

  /** A bitmap as a value: the counter, the page list in list order and the options. */
  datatype State = State(size: i64, pages: seq<PageState>, option: Option)

  /** `n` zero bytes. */
  function ZeroBits(n: nat): (r: seq<bv8>)
    ensures |r| == n && forall i :: 0 <= i < n ==> r[i] == 0
  {
    seq(n, _ => 0)
  }

  /** A page fresh from `newPage` (bitmap/bitmap.go:84-91). */
  function Blank(id: i64): PageState
  {
    PageState(id, 0, ZeroBits(PageSize))
  }

  /** Every page has `PageSize` bytes. */
  predicate Shaped(ps: seq<PageState>)
  {
    forall i :: 0 <= i < |ps| ==> |ps[i].bits| == PageSize
  }

  /** Page ids are distinct and, after the first page, ascending. The first page is special:
      `getPage` never inserts in front of it, so it may have a larger id than the pages after it. */
  predicate Ordered(ps: seq<PageState>)
  {
    (forall i, j :: 0 <= i < j < |ps| ==> ps[i].id != ps[j].id)
    && (forall i, j :: 1 <= i < j < |ps| ==> ps[i].id < ps[j].id)
  }

  predicate Inv(s: State)
  {
    Shaped(s.pages) && Ordered(s.pages)
  }

  /** `New` (bitmap/bitmap.go:70-81): no pages, counter 0; without options, AutoExpand and
      AutoRecycle on and capacity 0. */
  function Init(o: Common.Option<Option>): State
  {
    State(0, [], if o.None? then NewOption(0, true, true) else o.value)
  }

  /** The pages with `q` placed at position `at`. */
  function Insert(ps: seq<PageState>, at: nat, q: PageState): (r: seq<PageState>)
    requires at <= |ps|
    ensures |r| == |ps| + 1 && r[at] == q
    ensures forall j :: 0 <= j < at ==> r[j] == ps[j]
    ensures forall j :: at < j < |r| ==> r[j] == ps[j - 1]
  {
    ps[..at] + [q] + ps[at..]
  }

  /** Inserting a full-size page keeps every page full-size. */
  lemma InsertShaped(ps: seq<PageState>, at: nat, q: PageState)
    requires Shaped(ps) && at <= |ps| && |q.bits| == PageSize
    ensures Shaped(Insert(ps, at, q))
  {
    var r := Insert(ps, at, q);
    forall j | 0 <= j < |r| ensures |r[j].bits| == PageSize {
      if j < at {
        assert r[j] == ps[j];
      } else if j > at {
        assert r[j] == ps[j - 1];
      }
    }
  }

  // ---------------------------------------------------------------------------------------------
  // getPage
  // ---------------------------------------------------------------------------------------------

  /** Where the walk of `getPage` over the list stops: at the page with the id, or at the place a
      new page with that id is spliced in. */
  datatype Lookup = Hit(at: nat) | Miss(at: nat)

  /** The walk of `getPage` (bitmap/bitmap.go:108-125) from position i: a page with the id is a
      hit; a next page with a larger id stops the walk just after the current page; running off the
      end stops it at the back. */
  function Find(ps: seq<PageState>, idx: int, i: nat): (r: Lookup)
    requires i <= |ps|
    decreases |ps| - i
    ensures r.Hit? ==> i <= r.at < |ps| && ps[r.at].id == idx
    ensures r.Miss? ==> i <= r.at <= |ps| && (i < |ps| ==> i < r.at)
  {
    if i == |ps| then Miss(|ps|)
    else if ps[i].id == idx then Hit(i)
    else if i + 1 < |ps| && ps[i + 1].id > idx then Miss(i + 1)
    else Find(ps, idx, i + 1)
  }

  /** A miss of the walk from position i, which has passed pages without the id and (after the
      first page) with smaller ids, means no page has the id. */
  lemma {:induction false} FindAbsent(ps: seq<PageState>, idx: int, i: nat)
    requires Ordered(ps) && i <= |ps|
    requires forall j :: 0 <= j < i ==> ps[j].id != idx
    requires 1 <= i < |ps| ==> ps[i].id <= idx
    ensures Find(ps, idx, i).Miss? ==> forall j :: 0 <= j < |ps| ==> ps[j].id != idx
    decreases |ps| - i
  {
    if i < |ps| && ps[i].id != idx {
      if i + 1 < |ps| && ps[i + 1].id > idx {
        forall j | i + 1 < j < |ps| ensures ps[j].id != idx {
          assert ps[i + 1].id < ps[j].id;
        }
      } else {
        FindAbsent(ps, idx, i + 1);
      }
    }
  }

  /** Where the walk from position i misses, the page before (past the first page) has a smaller id
      and the page after a larger one. */
  lemma {:induction false} FindPlace(ps: seq<PageState>, idx: int, i: nat)
    requires i <= |ps|
    requires 1 <= i < |ps| ==> ps[i].id <= idx
    requires 2 <= i ==> ps[i - 1].id < idx
    ensures Find(ps, idx, i).Miss? ==>
      var at := Find(ps, idx, i).at;
      (2 <= at ==> ps[at - 1].id < idx) && (at < |ps| ==> idx < ps[at].id)
    decreases |ps| - i
  {
    if i < |ps| && ps[i].id != idx && !(i + 1 < |ps| && ps[i + 1].id > idx) {
      FindPlace(ps, idx, i + 1);
    }
  }

  /** Splicing a page with a new id in at a place where its neighbours after the first page are
      smaller before it and larger after it keeps the list ordered. */
  lemma InsertOrdered(ps: seq<PageState>, at: nat, q: PageState)
    requires Ordered(ps) && at <= |ps|
    requires forall j :: 0 <= j < |ps| ==> ps[j].id != q.id
    requires 2 <= at ==> ps[at - 1].id < q.id
    requires at < |ps| ==> q.id < ps[at].id
    requires |ps| > 0 ==> 1 <= at
    ensures Ordered(Insert(ps, at, q))
  {
    var r := Insert(ps, at, q);
    forall i, j | 1 <= i < j < |r| ensures r[i].id < r[j].id {
      if j < at {
      } else if j == at {
        assert r[i] == ps[i];
      } else if i > at {
      } else if i == at {
        assert r[j] == ps[j - 1];
      } else {
        assert r[j] == ps[j - 1];
      }
    }
  }

  /** bitmap/bitmap.go:108-135: on an ordered list the walk hits exactly when a page with the id is
      present, and a miss leaves a place where splicing in a page with that id keeps the list
      ordered. */
  lemma FindSpec(ps: seq<PageState>, q: PageState)
    requires Ordered(ps)
    ensures Find(ps, q.id, 0).Hit? <==> exists j :: 0 <= j < |ps| && ps[j].id == q.id
    ensures Find(ps, q.id, 0).Miss? ==> Ordered(Insert(ps, Find(ps, q.id, 0).at, q))
  {
    FindAbsent(ps, q.id, 0);
    FindPlace(ps, q.id, 0);
    if Find(ps, q.id, 0).Miss? {
      InsertOrdered(ps, Find(ps, q.id, 0).at, q);
    }
  }

  /** `getPage(n, create)` (bitmap/bitmap.go:101-135): the position of the page holding bit n, if
      any, and the new state; with `create` a missing page is spliced in where the walk stopped. */
  function GetPageOp(s: State, n: i64, create: bool): (r: (Common.Option<nat>, State))
    requires n >= 1
    ensures r.0.Some? ==> r.0.value < |r.1.pages| && r.1.pages[r.0.value].id == PageIndex(n)
    ensures Shaped(s.pages) ==> Shaped(r.1.pages)
    ensures r.1.size == s.size && r.1.option == s.option
  {
    if Gated(s.option, n) then (None, s)
    else
      match Find(s.pages, PageIndex(n), 0)
      case Hit(i) => (Some(i), s)
      case Miss(at) =>
        if create then (Some(at), s.(pages := Insert(s.pages, at, Blank(PageIndex(n)))))
        else (None, s)
  }

  /** bitmap/bitmap.go:101-135: a refused bit finds nothing and changes nothing; without `create`
      nothing changes and a page is found exactly when one with the right id is present; with
      `create` a page is always found, either an existing one or a blank one spliced in, and the
      list stays ordered. */
  lemma GetPageSpec(s: State, n: i64, create: bool)
    requires Inv(s) && n >= 1
    ensures Inv(GetPageOp(s, n, create).1)
    ensures Gated(s.option, n) ==> GetPageOp(s, n, create) == (None, s)
    ensures !create ==> GetPageOp(s, n, create).1 == s
    ensures !create ==> (GetPageOp(s, n, create).0.Some? <==>
      !Gated(s.option, n) && exists j :: 0 <= j < |s.pages| && s.pages[j].id == PageIndex(n))
    ensures create && !Gated(s.option, n) ==>
      var (e, t) := GetPageOp(s, n, create);
      e.Some? && if exists j :: 0 <= j < |s.pages| && s.pages[j].id == PageIndex(n) then t == s
                 else t.pages == Insert(s.pages, e.value, Blank(PageIndex(n)))
  {
    if !Gated(s.option, n) {
      FindSpec(s.pages, Blank(PageIndex(n)));
    }
  }

  // ---------------------------------------------------------------------------------------------
  // Bits of a page
  // ---------------------------------------------------------------------------------------------

  /** The test of `Test` (bitmap/bitmap.go:173-174) on the bytes of the page holding bit n. */
  predicate Bit(bits: seq<bv8>, n: int)
    requires |bits| == PageSize && n >= 1
  {
    bits[ByteIndex(n)] & Mask(n) > 0
  }

  /** The update `setBitInPage` makes to the page holding bit n (bitmap/bitmap.go:146-152): OR in or
      AND-NOT out the mask, and count the request. */
  function Flip(p: PageState, n: i64, on: bool): (q: PageState)
    requires |p.bits| == PageSize && n >= 1
    ensures q.id == p.id && |q.bits| == PageSize
  {
    var k := ByteIndex(n);
    p.(bits := p.bits[k := FlipByte(p.bits[k], n, on)], size := Count(p.size, on))
  }

  /** `|=` or `&^=` of the mask of bit n (bitmap/bitmap.go:148, bitmap.go:151). */
  function FlipByte(b: bv8, n: i64, on: bool): bv8
    requires n >= 1
  {
    if on then b | Mask(n) else b & !Mask(n)
  }

  /** `size++` or `size--` on Go's `int` (bitmap/bitmap.go:149, bitmap.go:152). */
  function Count(size: i64, on: bool): i64
  {
    if on then AddI64(size, 1) else SubI64(size, 1)
  }

  /** After the update bit n reads as requested; every other bit of the page reads as before. */
  lemma FlipBits(p: PageState, n: i64, on: bool, m: int)
    requires |p.bits| == PageSize && n >= 1 && m >= 1
    requires PageIndex(m) == PageIndex(n)
    ensures Bit(Flip(p, n, on).bits, n) == on
    ensures m != n ==> Bit(Flip(p, n, on).bits, m) == Bit(p.bits, m)
  {
    FlipSelf(p, n, on);
    if m != n {
      FlipOther(p, n, on, m);
    }
  }

  lemma FlipSelf(p: PageState, n: i64, on: bool)
    requires |p.bits| == PageSize && n >= 1
    ensures Bit(Flip(p, n, on).bits, n) == on
  {
    var k := ByteIndex(n);
    MaskFacts(p.bits[k], BitIndex(n), BitIndex(n));
  }

  lemma FlipOther(p: PageState, n: i64, on: bool, m: int)
    requires |p.bits| == PageSize && n >= 1 && m >= 1 && m != n
    requires PageIndex(m) == PageIndex(n)
    ensures Bit(Flip(p, n, on).bits, m) == Bit(p.bits, m)
  {
    var k := ByteIndex(n);
    var nb := Flip(p, n, on).bits;
    if ByteIndex(m) == k {
      SameByte(n, m);
      MaskFacts(p.bits[k], BitIndex(m), BitIndex(n));
    } else {
      assert nb[ByteIndex(m)] == p.bits[ByteIndex(m)];
    }
  }

  /** Two different bits of the same byte of the same page sit at different positions in it. */
  lemma SameByte(n: int, m: int)
    requires n >= 1 && m >= 1 && n != m
    requires PageIndex(m) == PageIndex(n) && ByteIndex(m) == ByteIndex(n)
    ensures BitIndex(m) != BitIndex(n)
  {
    AddressOf(n, m);
  }

  /** A blank page has no bit set. */
  lemma BlankBits(id: i64, m: int)
    requires m >= 1
    ensures !Bit(Blank(id).bits, m)
  {
  }

  // ---------------------------------------------------------------------------------------------
  // Test, Set, Clear
  // ---------------------------------------------------------------------------------------------

  /** `Test` (bitmap/bitmap.go:162-175): the bit read from the page `getPage` finds, false when
      there is none. */
  predicate TestOp(s: State, n: i64)
    requires Shaped(s.pages) && n >= 1
  {
    var e := GetPageOp(s, n, false).0;
    e.Some? && Bit(s.pages[e.value].bits, n)
  }

  /** bitmap/bitmap.go:162-175: on a well-formed bitmap bit n is set exactly when it is not refused
      and the page with its page index has it set. */
  lemma TestMeaning(s: State, n: i64)
    requires Inv(s) && n >= 1
    ensures TestOp(s, n) <==> (!Gated(s.option, n) &&
      exists j :: 0 <= j < |s.pages| && s.pages[j].id == PageIndex(n) && Bit(s.pages[j].bits, n))
  {
    GetPageSpec(s, n, false);
  }

  /** `setBitInPage` (bitmap/bitmap.go:137-159): find or create the page; a refused bit changes
      nothing; otherwise update the page, and on a clear that brings the counter to 0 with
      AutoRecycle on, unlink the page. */
  function SetBitOp(s: State, n: i64, on: bool): (r: State)
    requires Shaped(s.pages) && n >= 1
    ensures Shaped(r.pages) && r.size == s.size && r.option == s.option
  {
    var (e, t) := GetPageOp(s, n, true);
    if e.None? then t else Apply(t, e.value, n, on)
  }

  /** The page update of `setBitInPage` (bitmap/bitmap.go:144-158) on the i-th page. */
  function Apply(t: State, i: nat, n: i64, on: bool): (r: State)
    requires Shaped(t.pages) && i < |t.pages| && n >= 1
    ensures Shaped(r.pages) && r.size == t.size && r.option == t.option
  {
    var q := Flip(t.pages[i], n, on);
    if !on && q.size == 0 && t.option.autoRecycle then t.(pages := Cut(t.pages, i))
    else t.(pages := t.pages[i := q])
  }

  /** `Set` (bitmap/bitmap.go:187-193): set the bit, then count the request. */
  function SetOp(s: State, n: i64): State
    requires Shaped(s.pages) && n >= 1
  {
    SetBitOp(s, n, true).(size := AddI64(s.size, 1))
  }

  /** `Clear` (bitmap/bitmap.go:178-184): clear the bit, then count the request. */
  function ClearOp(s: State, n: i64): State
    requires Shaped(s.pages) && n >= 1
  {
    SetBitOp(s, n, false).(size := SubI64(s.size, 1))
  }

  /** Replacing a page by one with the same id changes only the bits of that page. */
  lemma UpdateTest(s: State, i: nat, q: PageState, m: i64)
    requires Inv(s) && i < |s.pages| && q.id == s.pages[i].id && |q.bits| == PageSize && m >= 1
    ensures Inv(s.(pages := s.pages[i := q]))
    ensures TestOp(s.(pages := s.pages[i := q]), m) ==
      if PageIndex(m) == q.id then !Gated(s.option, m) && Bit(q.bits, m) else TestOp(s, m)
  {
    var r := s.(pages := s.pages[i := q]);
    TestMeaning(s, m);
    TestMeaning(r, m);
    if PageIndex(m) == q.id && !Gated(s.option, m) && Bit(q.bits, m) {
      assert r.pages[i].id == PageIndex(m);
    }
    if PageIndex(m) != q.id && TestOp(s, m) {
      var j :| 0 <= j < |s.pages| && s.pages[j].id == PageIndex(m) && Bit(s.pages[j].bits, m);
      assert r.pages[j] == s.pages[j];
    }
  }

  /** Splicing in a page with a new id changes only the bits of that id. */
  lemma InsertTest(s: State, at: nat, q: PageState, m: i64)
    requires Inv(s) && at <= |s.pages| && |q.bits| == PageSize && m >= 1
    requires forall j :: 0 <= j < |s.pages| ==> s.pages[j].id != q.id
    requires Ordered(Insert(s.pages, at, q))
    ensures Inv(s.(pages := Insert(s.pages, at, q)))
    ensures TestOp(s.(pages := Insert(s.pages, at, q)), m) ==
      if PageIndex(m) == q.id then !Gated(s.option, m) && Bit(q.bits, m) else TestOp(s, m)
  {
    var r := s.(pages := Insert(s.pages, at, q));
    TestMeaning(s, m);
    TestMeaning(r, m);
    if PageIndex(m) == q.id && !Gated(s.option, m) && Bit(q.bits, m) {
      assert r.pages[at].id == PageIndex(m);
    }
    if PageIndex(m) != q.id && TestOp(s, m) {
      var j :| 0 <= j < |s.pages| && s.pages[j].id == PageIndex(m) && Bit(s.pages[j].bits, m);
      if j < at {
        assert r.pages[j] == s.pages[j];
      } else {
        assert r.pages[j + 1] == s.pages[j];
      }
    }
    if PageIndex(m) != q.id && TestOp(r, m) {
      var j :| 0 <= j < |r.pages| && r.pages[j].id == PageIndex(m) && Bit(r.pages[j].bits, m);
      if j < at {
        assert r.pages[j] == s.pages[j];
      } else {
        assert r.pages[j] == s.pages[j - 1];
      }
    }
  }

  /** The pages without the i-th, the others in their order. */
  function Cut(ps: seq<PageState>, i: nat): (r: seq<PageState>)
    requires i < |ps|
    ensures |r| == |ps| - 1
    ensures forall j :: 0 <= j < i ==> r[j] == ps[j]
    ensures forall j :: i <= j < |r| ==> r[j] == ps[j + 1]
  {
    ps[..i] + ps[i + 1..]
  }

  /** Unlinking a page keeps the list well formed. */
  lemma CutInv(ps: seq<PageState>, i: nat)
    requires Shaped(ps) && Ordered(ps) && i < |ps|
    ensures Shaped(Cut(ps, i)) && Ordered(Cut(ps, i))
  {
    var r := Cut(ps, i);
    forall a, b | 0 <= a < b < |r| ensures r[a].id != r[b].id {
      if b < i {
      } else if a < i {
        assert r[a] == ps[a] && r[b] == ps[b + 1];
      } else {
        assert r[a] == ps[a + 1] && r[b] == ps[b + 1];
      }
    }
    forall a, b | 1 <= a < b < |r| ensures r[a].id < r[b].id {
      if b < i {
      } else if a < i {
        assert r[a] == ps[a] && r[b] == ps[b + 1];
      } else {
        assert r[a] == ps[a + 1] && r[b] == ps[b + 1];
      }
    }
  }

  /** Unlinking a page loses every bit of its id and no other. */
  lemma RemoveTest(s: State, i: nat, m: i64)
    requires Inv(s) && i < |s.pages| && m >= 1
    ensures Inv(s.(pages := Cut(s.pages, i)))
    ensures TestOp(s.(pages := Cut(s.pages, i)), m) ==
      if PageIndex(m) == s.pages[i].id then false else TestOp(s, m)
  {
    var ps := s.pages;
    var r := s.(pages := Cut(ps, i));
    CutInv(ps, i);
    TestMeaning(s, m);
    TestMeaning(r, m);
    if PageIndex(m) != ps[i].id && TestOp(s, m) {
      var j :| 0 <= j < |ps| && ps[j].id == PageIndex(m) && Bit(ps[j].bits, m);
      if j < i {
        assert r.pages[j] == ps[j];
      } else {
        assert r.pages[j - 1] == ps[j];
      }
    }
    if TestOp(r, m) {
      var j :| 0 <= j < |r.pages| && r.pages[j].id == PageIndex(m) && Bit(r.pages[j].bits, m);
      if j < i {
        assert r.pages[j] == ps[j];
      } else {
        assert r.pages[j] == ps[j + 1];
      }
    }
  }

  /** What `setBitInPage` does to the bits: a refused bit changes nothing; otherwise bit n reads as
      requested unless the clear unlinked its page, when every bit of that page reads as cleared;
      every bit of another page reads as before. The list stays well formed. */
  lemma SetBitSpec(s: State, n: i64, on: bool, m: i64)
    requires Inv(s) && n >= 1 && m >= 1
    ensures Inv(SetBitOp(s, n, on))
    ensures Gated(s.option, n) ==> SetBitOp(s, n, on) == s
    ensures !Gated(s.option, n) ==> TestOp(SetBitOp(s, n, on), n) == on
    ensures m != n && PageIndex(m) != PageIndex(n) ==> TestOp(SetBitOp(s, n, on), m) == TestOp(s, m)
    ensures m != n && (on || !s.option.autoRecycle) ==>
      TestOp(SetBitOp(s, n, on), m) == TestOp(s, m)
    ensures TestOp(SetBitOp(s, n, false), m) ==> TestOp(s, m)
  {
    SetBitCase(s, n, on, m);
    if on {
      SetBitCase(s, n, false, m);
    } else {
      SetBitCase(s, n, true, m);
    }
  }

  /** One call's worth of `SetBitSpec`. */
  lemma SetBitCase(s: State, n: i64, on: bool, m: i64)
    requires Inv(s) && n >= 1 && m >= 1
    ensures Inv(SetBitOp(s, n, on))
    ensures Gated(s.option, n) ==> SetBitOp(s, n, on) == s
    ensures !Gated(s.option, n) ==> TestOp(SetBitOp(s, n, on), n) == on
    ensures m != n && PageIndex(m) != PageIndex(n) ==> TestOp(SetBitOp(s, n, on), m) == TestOp(s, m)
    ensures m != n && (on || !s.option.autoRecycle) ==>
      TestOp(SetBitOp(s, n, on), m) == TestOp(s, m)
    ensures !on ==> (TestOp(SetBitOp(s, n, on), m) ==> TestOp(s, m))
  {
    GetPageSpec(s, n, true);
    if !Gated(s.option, n) {
      var (e, t) := GetPageOp(s, n, true);
      CreateKeepsTests(s, n, m);
      ApplyTests(t, e.value, n, on, m);
    }
  }

  /** Splicing in the blank page of `getPage` changes no bit. */
  lemma CreateKeepsTests(s: State, n: i64, m: i64)
    requires Inv(s) && n >= 1 && m >= 1
    ensures Inv(GetPageOp(s, n, true).1)
    ensures TestOp(GetPageOp(s, n, true).1, m) == TestOp(s, m)
  {
    GetPageSpec(s, n, true);
    if !Gated(s.option, n) && !exists j :: 0 <= j < |s.pages| && s.pages[j].id == PageIndex(n) {
      var at := GetPageOp(s, n, true).0.value;
      FindSpec(s.pages, Blank(PageIndex(n)));
      InsertTest(s, at, Blank(PageIndex(n)), m);
      BlankBits(PageIndex(n), m);
      TestMeaning(s, m);
    }
  }

  /** The page update sets or clears bit n, leaves the other pages' bits, and leaves the other bits
      of the page unless it is unlinked. */
  lemma ApplyTests(t: State, i: nat, n: i64, on: bool, m: i64)
    requires Inv(t) && n >= 1 && m >= 1 && i < |t.pages| && t.pages[i].id == PageIndex(n)
    requires !Gated(t.option, n)
    ensures Inv(Apply(t, i, n, on))
    ensures TestOp(Apply(t, i, n, on), n) == on
    ensures m != n && PageIndex(m) != PageIndex(n) ==> TestOp(Apply(t, i, n, on), m) == TestOp(t, m)
    ensures m != n && (on || !t.option.autoRecycle) ==> TestOp(Apply(t, i, n, on), m) == TestOp(t, m)
    ensures !on ==> (TestOp(Apply(t, i, n, on), m) ==> TestOp(t, m))
  {
    var p := t.pages[i];
    var q := Flip(p, n, on);
    FlipBits(p, n, on, n);
    if PageIndex(m) == PageIndex(n) {
      FlipBits(p, n, on, m);
    }
    if !on && q.size == 0 && t.option.autoRecycle {
      RemoveTest(t, i, m);
      RemoveTest(t, i, n);
    } else {
      UpdateTest(t, i, q, m);
      UpdateTest(t, i, q, n);
      if PageIndex(m) == PageIndex(n) {
        TestAt(t, i, m);
      }
    }
  }

  /** A bit reads from the one page with its page index. */
  lemma TestAt(s: State, i: nat, m: i64)
    requires Inv(s) && m >= 1 && i < |s.pages| && s.pages[i].id == PageIndex(m)
    ensures TestOp(s, m) == (!Gated(s.option, m) && Bit(s.pages[i].bits, m))
  {
    TestMeaning(s, m);
  }

  /** Reading a bit does not look at the bitmap's counter. */
  lemma TestIgnoresCounter(s: State, k: i64, m: i64)
    requires Shaped(s.pages) && m >= 1
    ensures TestOp(s.(size := k), m) == TestOp(s, m)
  {
    assert GetPageOp(s.(size := k), m, false).0 == GetPageOp(s, m, false).0;
  }

  /** The page index of the bits between two page boundaries. */
  lemma PageOf(n: int, r: int)
    requires 0 <= r && r * BitsPerPage < n <= (r + 1) * BitsPerPage
    ensures PageIndex(n) == r
  {
  }

  /** bitmap/bitmap.go:137-149, bitmap.go:162-175, bitmap.go:187-193: after `Set(n)` bit n is set
      unless the request was refused, and no other bit changes. */
  lemma SetThenTest(s: State, n: i64, m: i64)
    requires Inv(s) && n >= 1 && m >= 1
    ensures Inv(SetOp(s, n))
    ensures TestOp(SetOp(s, n), n) == !Gated(s.option, n)
    ensures m != n ==> TestOp(SetOp(s, n), m) == TestOp(s, m)
  {
    SetBitSpec(s, n, true, m);
    SetBitSpec(s, n, true, n);
    TestIgnoresCounter(SetBitOp(s, n, true), AddI64(s.size, 1), m);
    TestIgnoresCounter(SetBitOp(s, n, true), AddI64(s.size, 1), n);
    if Gated(s.option, n) {
      assert GetPageOp(s, n, false).0.None?;
    }
  }

  /** bitmap/bitmap.go:150-156, bitmap.go:178-184: after `Clear(n)` bit n is clear; no bit becomes
      set; bits of other pages are unchanged, and with AutoRecycle off so are the other bits of its
      own page (with it on, unlinking a page whose counter reached 0 also loses them). */
  lemma ClearThenTest(s: State, n: i64, m: i64)
    requires Inv(s) && n >= 1 && m >= 1
    ensures Inv(ClearOp(s, n))
    ensures !TestOp(ClearOp(s, n), n)
    ensures TestOp(ClearOp(s, n), m) ==> TestOp(s, m)
    ensures m != n && (PageIndex(m) != PageIndex(n) || !s.option.autoRecycle) ==>
      TestOp(ClearOp(s, n), m) == TestOp(s, m)
  {
    SetBitSpec(s, n, false, m);
    SetBitSpec(s, n, false, n);
    TestIgnoresCounter(SetBitOp(s, n, false), SubI64(s.size, 1), m);
    TestIgnoresCounter(SetBitOp(s, n, false), SubI64(s.size, 1), n);
    if Gated(s.option, n) {
      assert GetPageOp(s, n, false).0.None?;
    }
  }

  /** The listed page with the given id, if there is one. */
  function PageWith(ps: seq<PageState>, id: int): (r: Common.Option<PageState>)
    ensures r.Some? ==> r.value.id == id && exists j :: 0 <= j < |ps| && ps[j] == r.value
    ensures r.None? ==> forall j :: 0 <= j < |ps| ==> ps[j].id != id
  {
    if ps == [] then None
    else if ps[0].id == id then Some(ps[0])
    else
      var r := PageWith(ps[1..], id);
      assert r.Some? ==> ps[1..][IndexOf(ps[1..], r.value)] == ps[IndexOf(ps[1..], r.value) + 1];
      r
  }

  /** With distinct ids, the page at position j is the page with its id. */
  lemma {:induction false} PageWithAt(ps: seq<PageState>, j: nat)
    requires Ordered(ps) && j < |ps|
    ensures PageWith(ps, ps[j].id) == Some(ps[j])
  {
    if j > 0 {
      assert ps[0].id != ps[j].id;
      assert Ordered(ps[1..]) by {
        forall a, b | 0 <= a < b < |ps[1..]| ensures ps[1..][a].id != ps[1..][b].id {
          assert ps[1..][a] == ps[a + 1] && ps[1..][b] == ps[b + 1];
        }
        forall a, b | 1 <= a < b < |ps[1..]| ensures ps[1..][a].id < ps[1..][b].id {
          assert ps[1..][a] == ps[a + 1] && ps[1..][b] == ps[b + 1];
        }
      }
      PageWithAt(ps[1..], j - 1);
      assert ps[1..][j - 1] == ps[j];
    }
  }

  /** Two well-formed lists holding the same pages apart from id x agree on every other id. */
  lemma PageWithOthers(ps: seq<PageState>, rs: seq<PageState>, x: int)
    requires Ordered(ps) && Ordered(rs)
    requires forall j :: 0 <= j < |ps| && ps[j].id != x ==> exists k :: 0 <= k < |rs| && rs[k] == ps[j]
    requires forall k :: 0 <= k < |rs| && rs[k].id != x ==> exists j :: 0 <= j < |ps| && ps[j] == rs[k]
    ensures forall id :: id != x ==> PageWith(rs, id) == PageWith(ps, id)
  {
    forall id | id != x ensures PageWith(rs, id) == PageWith(ps, id) {
      if PageWith(ps, id).Some? {
        var j :| 0 <= j < |ps| && ps[j] == PageWith(ps, id).value;
        var k :| 0 <= k < |rs| && rs[k] == ps[j];
        PageWithAt(rs, k);
      }
    }
  }

  /** Unlinking the i-th page removes its id and keeps every other. */
  lemma CutPages(ps: seq<PageState>, i: nat)
    requires Shaped(ps) && Ordered(ps) && i < |ps|
    ensures PageWith(Cut(ps, i), ps[i].id).None?
    ensures forall id :: id != ps[i].id ==> PageWith(Cut(ps, i), id) == PageWith(ps, id)
  {
    CutInv(ps, i);
    CutCover(ps, i);
    PageWithOthers(ps, Cut(ps, i), ps[i].id);
  }

  /** After an unlink the other pages are exactly the remaining ones, and none has the id of the
      page unlinked. */
  lemma CutCover(ps: seq<PageState>, i: nat)
    requires Ordered(ps) && i < |ps|
    ensures var r := Cut(ps, i);
      forall j :: 0 <= j < |ps| && ps[j].id != ps[i].id ==> exists k :: 0 <= k < |r| && r[k] == ps[j]
    ensures var r := Cut(ps, i);
      forall k :: 0 <= k < |r| ==> r[k].id != ps[i].id && exists j :: 0 <= j < |ps| && ps[j] == r[k]
  {
    var r := Cut(ps, i);
    forall j | 0 <= j < |ps| && ps[j].id != ps[i].id ensures exists k :: 0 <= k < |r| && r[k] == ps[j] {
      if j < i { assert r[j] == ps[j]; } else { assert r[j - 1] == ps[j]; }
    }
    forall k | 0 <= k < |r| ensures r[k].id != ps[i].id && exists j :: 0 <= j < |ps| && ps[j] == r[k] {
      if k < i { assert r[k] == ps[k]; } else { assert r[k] == ps[k + 1]; }
    }
  }

  /** Replacing the i-th page by one with the same id makes it the page of that id and keeps every
      other. */
  lemma UpdatePages(ps: seq<PageState>, i: nat, q: PageState)
    requires Ordered(ps) && i < |ps| && q.id == ps[i].id
    ensures PageWith(ps[i := q], q.id) == Some(q)
    ensures forall id :: id != q.id ==> PageWith(ps[i := q], id) == PageWith(ps, id)
  {
    var r := ps[i := q];
    assert Ordered(r) by {
      forall a, b | 0 <= a < b < |r| ensures r[a].id != r[b].id {
        assert r[a].id == ps[a].id && r[b].id == ps[b].id;
      }
      forall a, b | 1 <= a < b < |r| ensures r[a].id < r[b].id {
        assert r[a].id == ps[a].id && r[b].id == ps[b].id;
      }
    }
    forall j | 0 <= j < |ps| && ps[j].id != q.id ensures exists k :: 0 <= k < |r| && r[k] == ps[j] {
      assert r[j] == ps[j];
    }
    forall k | 0 <= k < |r| && r[k].id != q.id ensures exists j :: 0 <= j < |ps| && ps[j] == r[k] {
      assert r[k] == ps[k];
    }
    PageWithOthers(ps, r, q.id);
    PageWithAt(r, i);
  }

  /** Splicing in a page with a new id makes it the page of that id and keeps every other. */
  lemma InsertPages(ps: seq<PageState>, at: nat, q: PageState)
    requires Ordered(ps) && at <= |ps| && Ordered(Insert(ps, at, q))
    ensures PageWith(Insert(ps, at, q), q.id) == Some(q)
    ensures forall id :: id != q.id ==> PageWith(Insert(ps, at, q), id) == PageWith(ps, id)
  {
    var r := Insert(ps, at, q);
    forall j | 0 <= j < |ps| && ps[j].id != q.id ensures exists k :: 0 <= k < |r| && r[k] == ps[j] {
      if j < at { assert r[j] == ps[j]; } else { assert r[j + 1] == ps[j]; }
    }
    forall k | 0 <= k < |r| && r[k].id != q.id ensures exists j :: 0 <= j < |ps| && ps[j] == r[k] {
      if k < at { assert r[k] == ps[k]; } else { assert r[k] == ps[k - 1]; }
    }
    PageWithOthers(ps, r, q.id);
    PageWithAt(r, at);
  }

  /** The page `setBitInPage` updates for bit n: the listed one, or the blank one `getPage`
      splices in. */
  function Target(s: State, n: i64): (p: PageState)
    requires Shaped(s.pages) && n >= 1
    ensures p.id == PageIndex(n) && |p.bits| == PageSize
  {
    var o := PageWith(s.pages, PageIndex(n));
    if o.Some? then o.value else Blank(PageIndex(n))
  }

  /** bitmap/bitmap.go:137-159, bitmap.go:187-193, bitmap.go:178-184: what an accepted `Set` or
      `Clear` does to the pages. The page of bit n (a blank one with counter 0 when it was missing)
      gets the bit updated and its counter moved by one, up on every `Set` and down on every `Clear`
      whether or not the bit changes; if a clear brings that counter to 0 with AutoRecycle on, the
      page is unlinked instead. Every page with another id is as it was. */
  lemma PageCounters(s: State, n: i64, on: bool)
    requires Inv(s) && n >= 1 && !Gated(s.option, n)
    ensures var r := (if on then SetOp(s, n) else ClearOp(s, n)).pages;
      var c := Count(Target(s, n).size, on);
      PageWith(r, PageIndex(n)) ==
        if !on && c == 0 && s.option.autoRecycle then None else Some(Flip(Target(s, n), n, on))
    ensures var r := (if on then SetOp(s, n) else ClearOp(s, n)).pages;
      PageWith(r, PageIndex(n)).Some? ==>
        PageWith(r, PageIndex(n)).value.size == Count(Target(s, n).size, on)
    ensures forall id :: id != PageIndex(n) ==>
      PageWith((if on then SetOp(s, n) else ClearOp(s, n)).pages, id) == PageWith(s.pages, id)
  {
    var x := PageIndex(n);
    var ps := s.pages;
    GetPageSpec(s, n, true);
    var (e, t) := GetPageOp(s, n, true);
    var i := e.value;
    var q := Flip(t.pages[i], n, on);
    assert (if on then SetOp(s, n) else ClearOp(s, n)).pages == Apply(t, i, n, on).pages;
    if exists j :: 0 <= j < |ps| && ps[j].id == x {
      PageWithAt(ps, i);
      if !on && q.size == 0 && t.option.autoRecycle {
        CutPages(ps, i);
      } else {
        UpdatePages(ps, i, q);
      }
    } else {
      assert Target(s, n) == Blank(x);
      FindSpec(ps, Blank(x));
      InsertPages(ps, i, Blank(x));
      UpdatePages(t.pages, i, q);
    }
  }

  /** bitmap/bitmap.go:150-156, bitmap.go:178-184: with AutoRecycle on, an accepted `Clear(n)`
      leaves no page for bit n exactly when that page was listed with counter 1. */
  lemma ClearRecycles(s: State, n: i64)
    requires Inv(s) && n >= 1 && !Gated(s.option, n) && s.option.autoRecycle
    ensures PageWith(ClearOp(s, n).pages, PageIndex(n)).None? <==>
      PageWith(s.pages, PageIndex(n)).Some? && PageWith(s.pages, PageIndex(n)).value.size == 1
  {
    PageCounters(s, n, false);
  }


  /** bitmap/bitmap.go:102-104, bitmap.go:139-142, bitmap.go:183, bitmap.go:192: with AutoExpand off,
      `Set` or `Clear` of a bit beyond the capacity leaves every page alone and only moves the
      counter, and such a bit never tests as set. */
  lemma RefusedBit(s: State, n: i64)
    requires Shaped(s.pages) && n >= 1 && Gated(s.option, n)
    ensures SetOp(s, n) == s.(size := AddI64(s.size, 1))
    ensures ClearOp(s, n) == s.(size := SubI64(s.size, 1))
    ensures !TestOp(s, n)
  {
  }

  /** bitmap/bitmap.go:183, bitmap.go:192, bitmap.go:214, bitmap.go:219-224: the counter counts
      requests, not set bits: each `Set` adds 1 and each `Clear` takes 1 whether or not the bit
      changed or the request was refused, and only `ClearAll` resets it. */
  lemma SizeCounter(s: State, n: i64)
    requires Shaped(s.pages) && n >= 1
    ensures SetOp(s, n).size == AddI64(s.size, 1) && ClearOp(s, n).size == SubI64(s.size, 1)
    ensures SetOp(s, n).option == s.option && ClearOp(s, n).option == s.option
    ensures ClearAllOp(s).size == 0 && GcOp(s).size == s.size
  {
  }

  // ---------------------------------------------------------------------------------------------
  // ClearAll, Gc, Capacity
  // ---------------------------------------------------------------------------------------------

  /** A page after `ClearAll` blanks it (bitmap/bitmap.go:206-210). */
  function Wiped(p: PageState): (q: PageState)
    ensures q.id == p.id && q.size == 0 && q.bits == ZeroBits(|p.bits|)
  {
    p.(size := 0, bits := ZeroBits(|p.bits|))
  }

  /** `ClearAll` (bitmap/bitmap.go:196-216): every page blanked in place, the counter reset. */
  function ClearAllOp(s: State): (r: State)
    ensures |r.pages| == |s.pages| && r.option == s.option
    ensures forall i :: 0 <= i < |s.pages| ==> r.pages[i] == Wiped(s.pages[i])
  {
    s.(size := 0, pages := seq(|s.pages|, i requires 0 <= i < |s.pages| => Wiped(s.pages[i])))
  }

  /** The pages `Gc` keeps: those with a non-zero counter, in list order. */
  function Live(ps: seq<PageState>): (r: seq<PageState>)
    ensures |r| <= |ps|
  {
    if ps == [] then []
    else (if ps[0].size == 0 then [] else [ps[0]]) + Live(ps[1..])
  }

  /** The kept pages are exactly the listed pages with a non-zero counter. */
  lemma {:induction false} LiveMembers(ps: seq<PageState>)
    ensures forall p :: p in Live(ps) <==> p in ps && p.size != 0
  {
    if ps != [] {
      LiveMembers(ps[1..]);
      assert forall p :: p in ps <==> p == ps[0] || p in ps[1..];
    }
  }

  /** `Gc` (bitmap/bitmap.go:227-243): unlink every page whose counter is 0. */
  function GcOp(s: State): State
  {
    s.(pages := Live(s.pages))
  }

  /** `Capacity` (bitmap/bitmap.go:246-260): the option's capacity with AutoExpand off; otherwise
      0 without pages, or the bits up to the end of the last page of the list, computed in Go's
      wrapping 64-bit `int`. */
  function CapacityOp(s: State): i64
  {
    if !s.option.autoExpand then s.option.capacity
    else if s.pages == [] then 0
    else ToInt(((s.pages[|s.pages| - 1].id + 1) * BitsPerPage) % U64)
  }

  /** bitmap/bitmap.go:196-216: `ClearAll` keeps every page and its id, zeroes every counter, the
      bitmap's counter and every bit, and so leaves `Capacity` as it was. */
  lemma ClearAllSpec(s: State, m: i64)
    requires Inv(s) && m >= 1
    ensures Inv(ClearAllOp(s)) && ClearAllOp(s).size == 0
    ensures forall i :: 0 <= i < |s.pages| ==>
      ClearAllOp(s).pages[i].id == s.pages[i].id && ClearAllOp(s).pages[i].size == 0
    ensures !TestOp(ClearAllOp(s), m)
    ensures CapacityOp(ClearAllOp(s)) == CapacityOp(s)
  {
    var r := ClearAllOp(s);
    assert Inv(r);
    TestMeaning(r, m);
    forall j | 0 <= j < |r.pages| ensures !Bit(r.pages[j].bits, m) {
      assert r.pages[j].bits == ZeroBits(PageSize);
    }
  }

  /** Pages with strictly ascending ids, everywhere. */
  predicate Ascending(ps: seq<PageState>)
  {
    forall i, j :: 0 <= i < j < |ps| ==> ps[i].id < ps[j].id
  }

  /** Dropping pages keeps ascending ids ascending, and keeps the list order. */
  lemma {:induction false} LiveAscending(ps: seq<PageState>)
    requires Ascending(ps)
    ensures Ascending(Live(ps))
  {
    if ps != [] {
      LiveAscending(ps[1..]);
      LiveMembers(ps[1..]);
      var t := Live(ps[1..]);
      if ps[0].size != 0 {
        var r := [ps[0]] + t;
        forall i, j | 0 <= i < j < |r| ensures r[i].id < r[j].id {
          assert r[j] == t[j - 1] && r[j] in ps[1..];
          if i > 0 {
            assert r[i] == t[i - 1];
          }
        }
      }
    }
  }

  /** Appending a page to the pages looked at so far adds it to the kept ones exactly when its
      counter is not 0. */
  lemma {:induction false} LiveSnoc(ps: seq<PageState>, p: PageState)
    ensures Live(ps + [p]) == Live(ps) + (if p.size == 0 then [] else [p])
  {
    if ps == [] {
      assert [p][1..] == [];
    } else {
      var q := ps + [p];
      assert q[0] == ps[0] && q[1..] == ps[1..] + [p];
      LiveSnoc(ps[1..], p);
      var h := if ps[0].size == 0 then [] else [ps[0]];
      assert Live(q) == h + Live(ps[1..] + [p]);
      assert Live(ps) == h + Live(ps[1..]);
    }
  }

  /** One step of the walk of `Gc` over the original pages: the page at position c is kept or
      unlinked by its counter. */
  lemma GcStep(ps: seq<PageState>, c: nat)
    requires c < |ps|
    ensures var l := Live(ps[..c]);
      && Live(ps[..c + 1]) == (if ps[c].size == 0 then l else l + [ps[c]])
      && (l + ps[c..])[|l|] == ps[c]
      && (ps[c].size == 0 ==> Cut(l + ps[c..], |l|) == l + ps[c + 1..])
      && (ps[c].size != 0 ==> l + ps[c..] == (l + [ps[c]]) + ps[c + 1..])
  {
    var l := Live(ps[..c]);
    LiveSnoc(ps[..c], ps[c]);
    assert ps[..c + 1] == ps[..c] + [ps[c]];
    assert ps[c..] == [ps[c]] + ps[c + 1..];
  }

  /** bitmap/bitmap.go:227-243: `Gc` keeps exactly the pages whose counter is not 0, in their order,
      keeps the list well formed, a second `Gc` changes nothing, and no bit becomes set. */
  lemma GcSpec(s: State, m: i64)
    requires Inv(s) && m >= 1
    ensures Inv(GcOp(s))
    ensures forall p :: p in GcOp(s).pages <==> p in s.pages && p.size != 0
    ensures GcOp(GcOp(s)) == GcOp(s)
    ensures TestOp(GcOp(s), m) ==> TestOp(s, m)
  {
    LiveMembers(s.pages);
    LiveShaped(s.pages);
    LiveOrdered(s.pages);
    LiveIdempotent(s.pages);
    GcTests(s, m);
  }

  /** A bit that reads as set after `Gc` was set before. */
  lemma GcTests(s: State, m: i64)
    requires Inv(s) && Inv(GcOp(s)) && m >= 1
    ensures TestOp(GcOp(s), m) ==> TestOp(s, m)
  {
    var r := GcOp(s);
    if TestOp(r, m) {
      TestMeaning(r, m);
      var j :| 0 <= j < |r.pages| && r.pages[j].id == PageIndex(m) && Bit(r.pages[j].bits, m);
      LiveMembers(s.pages);
      assert r.pages[j] in s.pages;
      var k :| 0 <= k < |s.pages| && s.pages[k] == r.pages[j];
      TestMeaning(s, m);
    }
  }

  lemma LiveShaped(ps: seq<PageState>)
    requires Shaped(ps)
    ensures Shaped(Live(ps))
  {
    var r := Live(ps);
    LiveMembers(ps);
    forall i | 0 <= i < |r| ensures |r[i].bits| == PageSize {
      assert r[i] in ps;
    }
  }

  /** Dropping pages keeps the list ordered. */
  lemma LiveOrdered(ps: seq<PageState>)
    requires Ordered(ps)
    ensures Ordered(Live(ps))
  {
    if ps != [] {
      var tail := ps[1..];
      assert Ascending(tail) by {
        forall i, j | 0 <= i < j < |tail| ensures tail[i].id < tail[j].id {
          assert tail[i] == ps[i + 1] && tail[j] == ps[j + 1];
        }
      }
      LiveAscending(tail);
      var t := Live(tail);
      if ps[0].size != 0 {
        assert forall k :: 0 <= k < |tail| ==> tail[k].id != ps[0].id by {
          forall k | 0 <= k < |tail| ensures tail[k].id != ps[0].id {
            assert tail[k] == ps[k + 1];
          }
        }
        LiveAvoids(tail, ps[0].id);
        var r := [ps[0]] + t;
        forall i, j | 0 <= i < j < |r| ensures r[i].id != r[j].id {
          assert r[j] == t[j - 1];
          if i > 0 {
            assert r[i] == t[i - 1];
          }
        }
        assert Live(ps) == r;
      } else {
        assert Live(ps) == t;
      }
    }
  }

  /** An id that no listed page has is not the id of a kept page. */
  lemma {:induction false} LiveAvoids(ps: seq<PageState>, x: i64)
    requires forall k :: 0 <= k < |ps| ==> ps[k].id != x
    ensures forall i :: 0 <= i < |Live(ps)| ==> Live(ps)[i].id != x
  {
    if ps != [] {
      assert forall k :: 0 <= k < |ps[1..]| ==> ps[1..][k].id != x by {
        forall k | 0 <= k < |ps[1..]| ensures ps[1..][k].id != x {
          assert ps[1..][k] == ps[k + 1];
        }
      }
      LiveAvoids(ps[1..], x);
    }
  }

  lemma {:induction false} LiveIdempotent(ps: seq<PageState>)
    ensures Live(Live(ps)) == Live(ps)
  {
    if ps != [] {
      LiveIdempotent(ps[1..]);
      var t := Live(ps[1..]);
      if ps[0].size != 0 {
        var r := [ps[0]] + t;
        assert r[0] == ps[0] && r[1..] == t;
        assert Live(r) == [ps[0]] + Live(t);
      } else {
        assert Live(ps) == t;
      }
    }
  }

  /** bitmap/bitmap.go:246-260: with AutoExpand off every set bit is within the option's capacity;
      with it on every set bit is within `Capacity` unless it lies in a first page that is not also
      the last (the first page may have the largest id) or the last page ends past `int`'s range. */
  lemma CapacityCovers(s: State, n: i64)
    requires Inv(s) && n >= 1 && TestOp(s, n)
    ensures !s.option.autoExpand ==> n <= CapacityOp(s)
    ensures (s.option.autoExpand && (|s.pages| == 1 || PageIndex(n) != s.pages[0].id)
      && (s.pages[|s.pages| - 1].id + 1) * BitsPerPage < 0x8000_0000_0000_0000) ==> n <= CapacityOp(s)
  {
    TestMeaning(s, n);
    var j :| 0 <= j < |s.pages| && s.pages[j].id == PageIndex(n) && Bit(s.pages[j].bits, n);
    var last := |s.pages| - 1;
    if s.option.autoExpand && (|s.pages| == 1 || PageIndex(n) != s.pages[0].id)
      && (s.pages[last].id + 1) * BitsPerPage < 0x8000_0000_0000_0000
    {
      assert j == last || (1 <= j < last);
      CapacityArith(n, s.pages[j].id, s.pages[last].id);
    }
  }

  /** A bit of a page no later than the last one is within the end of the last page. */
  lemma CapacityArith(n: int, id: i64, last: i64)
    requires n >= 1 && id == PageIndex(n) && id <= last
    requires (last + 1) * BitsPerPage < 0x8000_0000_0000_0000
    ensures n <= ToInt(((last + 1) * BitsPerPage) % U64)
  {
    var c := (last + 1) * BitsPerPage;
    assert n <= c;
    assert c % U64 == c;
  }

  // ---------------------------------------------------------------------------------------------
  // Scenarios of bitmap/bitmap_test.go, and of the list order
  // ---------------------------------------------------------------------------------------------

  /** bitmap/bitmap_test.go:11-33: with the default options `Set(10)` gives one request counted and
      one page's worth of capacity; `Clear(10)` brings the counter back to 0 and, with AutoRecycle,
      unlinks the page; after `Set(10)` again, `ClearAll` keeps the capacity. */
  lemma DefaultScenario()
    ensures var s1 := SetOp(Init(None), 10);
      s1.size == 1 && CapacityOp(s1) == BitsPerPage && TestOp(s1, 10)
      && ClearOp(s1, 10).size == 0 && ClearOp(s1, 10).pages == []
      && CapacityOp(ClearAllOp(SetOp(ClearOp(s1, 10), 10))) == BitsPerPage
  {
    var s0 := Init(None);
    SetThenTest(s0, 10, 10);
    var s1 := SetOp(s0, 10);
    assert s1.pages == [Flip(Blank(0), 10, true)];
    assert CapacityOp(s1) == BitsPerPage by {
      assert s1.pages[|s1.pages| - 1].id == 0;
    }
    var s2 := ClearOp(s1, 10);
    assert s2.pages == [];
    ClearAllSpec(SetOp(s2, 10), 10);
  }

  /** bitmap/bitmap_test.go:69-83: with AutoExpand off and capacity 10, `Set(100)` is refused while
      `Set(4)` takes. */
  lemma AutoExpandOffScenario()
    ensures var s1 := SetOp(Init(Some(NewOption(10, false, false))), 100);
      !TestOp(s1, 100) && TestOp(SetOp(s1, 4), 4)
  {
    var s1 := SetOp(Init(Some(NewOption(10, false, false))), 100);
    SetThenTest(Init(Some(NewOption(10, false, false))), 100, 100);
    SetThenTest(s1, 4, 4);
  }

  /** bitmap/bitmap_test.go:85-125: with AutoExpand on, `Set(100000)` takes far beyond the capacity;
      a following `Clear(100000)` unlinks its page with AutoRecycle on and keeps it with AutoRecycle
      off, until `Gc` unlinks it. */
  lemma AutoRecycleScenario()
    ensures TestOp(SetOp(Init(Some(NewOption(10, true, false))), 100000), 100000)
    ensures |ClearOp(SetOp(Init(Some(NewOption(10, true, true))), 100000), 100000).pages| == 0
    ensures var s := ClearOp(SetOp(Init(Some(NewOption(10, true, false))), 100000), 100000);
      |s.pages| == 1 && |GcOp(s).pages| == 0
  {
    SetThenTest(Init(Some(NewOption(10, true, false))), 100000, 100000);
    var s := ClearOp(SetOp(Init(Some(NewOption(10, true, false))), 100000), 100000);
    assert s.pages == [Flip(Flip(Blank(PageIndex(100000)), 100000, true), 100000, false)];
    assert s.pages[0].size == 0;
    assert Live(s.pages) == [];
  }

  /** Setting or clearing a bit of an empty list splices in one page and updates it; a clear leaves
      that page's counter at -1, so it is never recycled. */
  lemma OnEmpty(s: State, n: i64, on: bool)
    requires s.pages == [] && n >= 1 && !Gated(s.option, n)
    ensures SetBitOp(s, n, on).pages == [Flip(Blank(PageIndex(n)), n, on)]
  {
    assert Find(s.pages, PageIndex(n), 0) == Miss(0);
    var t := s.(pages := [Blank(PageIndex(n))]);
    assert Insert(s.pages, 0, Blank(PageIndex(n))) == t.pages;
    assert GetPageOp(s, n, true) == (Some(0), t);
  }

  /** With one page listed, a bit of any other page gets a new page spliced in after it, whether the
      new id is larger or smaller. */
  lemma BehindFirst(s: State, n: i64, on: bool)
    requires Shaped(s.pages) && |s.pages| == 1 && n >= 1 && !Gated(s.option, n)
    requires PageIndex(n) != s.pages[0].id
    ensures SetBitOp(s, n, on).pages == [s.pages[0], Flip(Blank(PageIndex(n)), n, on)]
  {
    assert Find(s.pages, PageIndex(n), 0) == Miss(1);
    var t := s.(pages := [s.pages[0], Blank(PageIndex(n))]);
    assert Insert(s.pages, 1, Blank(PageIndex(n))) == t.pages;
    assert GetPageOp(s, n, true) == (Some(1), t);
  }

  /** bitmap/bitmap.go:108-135, bitmap.go:246-260: `getPage` never splices a page in front of the
      first one, so `Set(40000)` then `Set(1)` lists page 1 before page 0, and `Capacity` then
      reports one page's worth of bits although bit 40000 is set. */
  lemma FirstPageOutOfOrder()
    ensures var s := SetOp(SetOp(Init(None), 40000), 1);
      [s.pages[0].id, s.pages[1].id] == [1, 0] && TestOp(s, 40000) && CapacityOp(s) == BitsPerPage
  {
    var s1 := SetOp(Init(None), 40000);
    OnEmpty(Init(None), 40000, true);
    SetThenTest(Init(None), 40000, 40000);
    SetThenTest(s1, 1, 40000);
    PageOf(40000, 1);
    PageOf(1, 0);
    BehindFirst(s1, 1, true);
    var s := SetOp(s1, 1);
    assert s.pages[1].id == 0;
  }

  /** bitmap/bitmap.go:137-159, bitmap.go:178-184: `Clear` of a bit in a page that is not there
      splices in a page whose counter is then -1, which neither AutoRecycle nor `Gc` ever unlinks. */
  lemma ClearSplicesPage()
    ensures ClearOp(Init(None), 1).pages == [PageState(0, -1, ZeroBits(PageSize))]
    ensures GcOp(ClearOp(Init(None), 1)) == ClearOp(Init(None), 1)
  {
    OnEmpty(Init(None), 1, false);
    var c := ClearOp(Init(None), 1);
    var q := Flip(Blank(0), 1, false);
    assert q.bits == ZeroBits(PageSize);
    assert c.pages == [q];
    assert Live(c.pages) == [q] + Live([]);
  }

  /** bitmap/bitmap.go:144-158, bitmap.go:178-184: `Clear` of an unset bit can bring a counter to 0
      and unlink a page with a set bit: after `Set(1)`, `Clear(2)` loses bit 1. */
  lemma ClearLosesBit()
    ensures TestOp(SetOp(Init(None), 1), 1) && !TestOp(ClearOp(SetOp(Init(None), 1), 2), 1)
  {
    var s1 := SetOp(Init(None), 1);
    SetThenTest(Init(None), 1, 1);
    OnEmpty(Init(None), 1, true);
    assert s1.pages[0].size == 1 && s1.pages[0].id == 0 == PageIndex(2);
    assert Find(s1.pages, 0, 0) == Hit(0);
    assert ClearOp(s1, 2).pages == Cut(s1.pages, 0);
  }

  // ---------------------------------------------------------------------------------------------
  // The objects
  // ---------------------------------------------------------------------------------------------

  /** A page (bitmap/bitmap.go:55-59): its id and byte buffer are fixed, its counter changes. */
  class Page {
    const id: i64
    var size: i64
    const bits: array<bv8>

    /** `newPage` (bitmap/bitmap.go:84-91): a zeroed buffer of `PageSize` bytes. */
    constructor (id: i64)
      ensures this.id == id && size == 0 && fresh(bits) && bits[..] == ZeroBits(PageSize)
    {
      this.id := id;
      size := 0;
      bits := new bv8[PageSize](_ => 0);
    }

    /** One page of `ClearAll` (bitmap/bitmap.go:206-210): every byte and the counter set to 0. */
    method Wipe()
      modifies this, bits
      ensures size == 0 && bits[..] == ZeroBits(bits.Length)
    {
      for k := 0 to bits.Length
        invariant forall m :: 0 <= m < k ==> bits[m] == 0
      {
        bits[k] := 0;
      }
      size := 0;
    }
  }

  /** A page object read as a value. */
  function Snap(p: Page): PageState
    reads p, p.bits
  {
    PageState(p.id, p.size, p.bits[..])
  }

  /** Putting a page with a buffer of its own into a list of pages with distinct buffers keeps the
      buffers distinct, and reads as inserting its value. */
  lemma SpliceFacts(ps: seq<Page>, at: nat, p: Page)
    requires at <= |ps|
    requires forall i, j :: 0 <= i < j < |ps| ==> ps[i].bits != ps[j].bits
    requires forall i :: 0 <= i < |ps| ==> ps[i].bits != p.bits
    ensures var np := ps[..at] + [p] + ps[at..];
      (forall i, j :: 0 <= i < j < |np| ==> np[i].bits != np[j].bits)
      && Snaps(np) == Insert(Snaps(ps), at, Snap(p))
  {
    var np := ps[..at] + [p] + ps[at..];
    forall i | 0 <= i < |np| ensures np[i] == if i < at then ps[i] else if i == at then p else ps[i - 1] {
    }
    forall i, j | 0 <= i < j < |np| ensures np[i].bits != np[j].bits {
    }
  }

  /** Taking a page out of a list of pages with distinct buffers keeps the buffers distinct, and
      reads as cutting its value out. */
  lemma CutFacts(ps: seq<Page>, i: nat)
    requires i < |ps|
    requires forall a, b :: 0 <= a < b < |ps| ==> ps[a].bits != ps[b].bits
    ensures var np := ps[..i] + ps[i + 1..];
      (forall a, b :: 0 <= a < b < |np| ==> np[a].bits != np[b].bits)
      && Snaps(np) == Cut(Snaps(ps), i)
  {
    var np := ps[..i] + ps[i + 1..];
    forall a | 0 <= a < |np| ensures np[a] == if a < i then ps[a] else ps[a + 1] {
    }
    forall a, b | 0 <= a < b < |np| ensures np[a].bits != np[b].bits {
    }
  }

  /** A list of page objects read as values. */
  function Snaps(ps: seq<Page>): (r: seq<PageState>)
    reads ps, set p | p in ps :: p.bits
    ensures |r| == |ps| && forall i :: 0 <= i < |ps| ==> r[i] == Snap(ps[i])
  {
    seq(|ps|, i requires 0 <= i < |ps| reads ps, set p | p in ps :: p.bits => Snap(ps[i]))
  }

  /** A bitmap (bitmap/bitmap.go:16-22): the request counter, the page list and its options. */
  class Bitmap {
    var size: i64
    var pages: seq<Page>
    const option: Option

    ghost function Buffers(): set<array<bv8>>
      reads this
    {
      set p | p in pages :: p.bits
    }

    ghost function View(): State
      reads this, pages, Buffers()
    {
      State(size, Snaps(pages), option)
    }

    /** No two pages share a buffer (so no page is listed twice), and the list is well formed. */
    ghost predicate Valid()
      reads this, pages, Buffers()
    {
      (forall i, j :: 0 <= i < j < |pages| ==> pages[i].bits != pages[j].bits)
      && Inv(View())
    }

    /** `New` (bitmap/bitmap.go:70-81). */
    constructor (o: Common.Option<Option>)
      ensures Valid() && View() == Init(o)
    {
      size := 0;
      pages := [];
      option := if o.None? then NewOption(0, true, true) else o.value;
    }

    /** `getPage` (bitmap/bitmap.go:101-135): walk the list; splice in a new page only with
        `create`, and change nothing without it. */
    method GetPage(n: i64, create: bool) returns (e: Common.Option<nat>)
      requires Valid() && n >= 1
      modifies if create then {this} else {}
      ensures Valid() && (e, View()) == GetPageOp(old(View()), n, create)
      ensures forall j :: 0 <= j < |pages| ==>
        pages[j] in old(pages) || (fresh(pages[j]) && fresh(pages[j].bits))
    {
      ghost var s := View();
      if n > option.capacity && !option.autoExpand {
        return None;
      }
      var idx: i64 := PageIndex(n);
      var i := 0;
      while i < |pages|
        invariant 0 <= i <= |pages|
        invariant Find(s.pages, idx, 0) == Find(s.pages, idx, i)
      {
        if pages[i].id == idx {
          return Some(i);
        }
        if i + 1 < |pages| && pages[i + 1].id > idx {
          if !create {
            return None;
          }
          assert Find(s.pages, idx, 0) == Miss(i + 1);
          FindSpec(s.pages, Blank(idx));
          e := Splice(i + 1, idx);
          return;
        }
        i := i + 1;
      }
      if !create {
        return None;
      }
      assert Find(s.pages, idx, 0) == Miss(|pages|);
      FindSpec(s.pages, Blank(idx));
      e := Splice(|pages|, idx);
    }

    /** The splice of `getPage`: a new blank page at position `at`, found there. */
    method Splice(at: nat, idx: i64) returns (e: Common.Option<nat>)
      requires Valid() && at <= |pages|
      requires Ordered(Insert(View().pages, at, Blank(idx)))
      modifies this
      ensures Valid() && e == Some(at)
      ensures View() == old(View()).(pages := Insert(old(View()).pages, at, Blank(idx)))
      ensures forall j :: 0 <= j < |pages| ==>
        pages[j] in old(pages) || (fresh(pages[j]) && fresh(pages[j].bits))
    {
      ghost var s := View();
      var p := new Page(idx);
      assert Snaps(pages) == s.pages;
      assert Snap(p) == Blank(idx);
      SpliceFacts(pages, at, p);
      InsertShaped(s.pages, at, Blank(idx));
      pages := pages[..at] + [p] + pages[at..];
      return Some(at);
    }

    /** `setBitInPage` (bitmap/bitmap.go:137-159). */
    method SetBitInPage(n: i64, on: bool)
      requires Valid() && n >= 1
      modifies this, pages, Buffers()
      ensures Valid() && View() == SetBitOp(old(View()), n, on)
    {
      var e := GetPage(n, true);
      if e.None? {
        return;
      }
      var i := e.value;
      UpdatePage(i, n, on);
      assert pages[i].size == View().pages[i].size;
      if !on && pages[i].size == 0 && option.autoRecycle {
        Unlink(i);
      }
    }

    /** The byte and counter update of `setBitInPage` (bitmap/bitmap.go:146-152) on the i-th page. */
    method UpdatePage(i: nat, n: i64, on: bool)
      requires Valid() && n >= 1 && i < |pages|
      modifies pages[i], pages[i].bits
      ensures Valid()
      ensures View() == old(View()).(pages := old(View()).pages[i := Flip(old(View()).pages[i], n, on)])
    {
      ghost var t := View();
      ghost var q := Flip(t.pages[i], n, on);
      var page := pages[i];
      var k := ByteIndex(n);
      assert page.bits[..] == t.pages[i].bits;
      page.bits[k] := FlipByte(page.bits[k], n, on);
      page.size := Count(page.size, on);
      assert page.bits[..] == q.bits;
      assert Snap(page) == q;
      forall j | 0 <= j < |pages| && j != i ensures Snap(pages[j]) == t.pages[j] {
        assert pages[j].bits != page.bits;
      }
      assert Snaps(pages) == t.pages[i := q];
      UpdateTest(t, i, q, n);
    }

    /** The unlinking of an emptied page by `setBitInPage` with AutoRecycle (bitmap/bitmap.go:154-156). */
    method Unlink(i: nat)
      requires Valid() && i < |pages|
      modifies this
      ensures Valid() && View() == old(View()).(pages := Cut(old(View()).pages, i))
    {
      ghost var t := View();
      CutFacts(pages, i);
      CutInv(t.pages, i);
      pages := pages[..i] + pages[i + 1..];
    }

    /** `Test` (bitmap/bitmap.go:162-175). */
    method Test(n: i64) returns (r: bool)
      requires Valid() && n >= 1
      ensures r == TestOp(View(), n)
    {
      var e := GetPage(n, false);
      if e.None? {
        return false;
      }
      var page := pages[e.value];
      assert page.bits[..] == View().pages[e.value].bits;
      r := page.bits[ByteIndex(n)] & Mask(n) > 0;
    }

    /** `Clear` (bitmap/bitmap.go:178-184). */
    method Clear(n: i64)
      requires Valid() && n >= 1
      modifies this, pages, Buffers()
      ensures Valid() && View() == ClearOp(old(View()), n)
    {
      SetBitInPage(n, false);
      size := SubI64(size, 1);
    }

    /** `Set` (bitmap/bitmap.go:187-193). */
    method Set(n: i64)
      requires Valid() && n >= 1
      modifies this, pages, Buffers()
      ensures Valid() && View() == SetOp(old(View()), n)
    {
      SetBitInPage(n, true);
      size := AddI64(size, 1);
    }

    /** `ClearAll` (bitmap/bitmap.go:196-216): zero every byte and counter of every page. */
    method ClearAll()
      requires Valid()
      modifies this, pages, Buffers()
      ensures Valid() && View() == ClearAllOp(old(View()))
    {
      ghost var s := View();
      for i := 0 to |pages|
        invariant pages == old(pages)
        invariant forall j :: 0 <= j < i ==> Snap(pages[j]) == Wiped(s.pages[j])
        invariant forall j :: i <= j < |pages| ==> Snap(pages[j]) == s.pages[j]
      {
        pages[i].Wipe();
        assert Snap(pages[i]) == Wiped(s.pages[i]);
      }
      size := 0;
      ClearAllSpec(s, 1);
      assert Snaps(pages) == ClearAllOp(s).pages;
    }

    /** `Size` (bitmap/bitmap.go:219-224): the request counter. */
    method Size() returns (r: i64)
      ensures r == size
    {
      r := size;
    }

    /** One turn of the walk in `Gc`: the page at `i` is the `c`-th original page; unlink it when its
        counter is 0, otherwise step past it. */
    method GcVisit(i: nat, ghost s: State, ghost c: nat) returns (j: nat)
      requires Valid() && c < |s.pages|
      requires View() == s.(pages := Live(s.pages[..c]) + s.pages[c..])
      requires i == |Live(s.pages[..c])|
      modifies this
      ensures Valid()
      ensures View() == s.(pages := Live(s.pages[..c + 1]) + s.pages[c + 1..])
      ensures j == |Live(s.pages[..c + 1])|
    {
      GcStep(s.pages, c);
      assert Snap(pages[i]) == s.pages[c];
      if pages[i].size == 0 {
        Unlink(i);
        j := i;
      } else {
        j := i + 1;
      }
    }

    /** `Gc` (bitmap/bitmap.go:227-243): unlink, in one walk, every page whose counter is 0. */
    method Gc()
      requires Valid()
      modifies this
      ensures Valid() && View() == GcOp(old(View()))
    {
      ghost var s := View();
      var i := 0;
      ghost var c := 0;
      while i < |pages|
        invariant Valid() && 0 <= c <= |s.pages|
        invariant View() == s.(pages := Live(s.pages[..c]) + s.pages[c..])
        invariant i == |Live(s.pages[..c])|
        decreases |s.pages| - c
      {
        i := GcVisit(i, s, c);
        c := c + 1;
      }
      assert s.pages[..c] == s.pages;
    }

    /** `Capacity` (bitmap/bitmap.go:246-260). */
    method Capacity() returns (r: i64)
      requires Valid()
      ensures r == CapacityOp(View())
    {
      if !option.autoExpand {
        return option.capacity;
      }
      if |pages| == 0 {
        return 0;
      }
      r := ToInt(((pages[|pages| - 1].id + 1) * BitsPerPage) % U64);
    }
  }
}
