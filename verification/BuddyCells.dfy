/** The free lists as the allocator stores them: one first-page index a list, and in the record of
    each page the indices of its neighbours and a byte holding its order and its free flag. */
module BuddyCells {
  import opened Bits

  const NULL_BLOCK: nat := 0xFFFF

  /** `orderAndFree` is a byte: the free flag in bit 0, the order above it. */
  datatype Page = Page(next: nat, prev: nat, orderAndFree: nat) {
    predicate IsFree() { Bit(orderAndFree, 0) }

    function Order(): nat { orderAndFree / 2 }

    function SetFree(): Page { this.(orderAndFree := Or(orderAndFree, 1)) }

    function ClearFree(): Page { this.(orderAndFree := AndNot(orderAndFree, 1)) }

    function SetOrder(order: nat): Page {
      this.(orderAndFree := Or(orderAndFree % 2, (2 * order) % 0x100))
    }
  }

  /** The flag is the lowest bit of the byte and the order the seven bits above. */
  lemma PackingBytes(p: Page, order: nat)
    requires order < 0x80
    ensures (p.IsFree() <==> p.orderAndFree % 2 == 1) && p.Order() == p.orderAndFree / 2
    ensures p.SetOrder(order) == p.(orderAndFree := 2 * order + p.orderAndFree % 2)
    ensures p.SetFree() == p.(orderAndFree := p.orderAndFree - p.orderAndFree % 2 + 1)
    ensures p.ClearFree() == p.(orderAndFree := p.orderAndFree - p.orderAndFree % 2)
  {
    var x := p.orderAndFree;
    PackingLaws(p, order);
    OrZero(x / 2);
    AndNotZero(x / 2);
    OneBit(x);
    OrShiftedBit(x % 2, order);
  }

  lemma OneBit(x: nat)
    ensures Or(x, 1) == x - x % 2 + 1 && AndNot(x, 1) == x - x % 2
  {
    OrZero(x / 2);
    AndNotZero(x / 2);
  }

  lemma OrShiftedBit(b: nat, x: nat)
    requires b < 2
    ensures Or(b, 2 * x) == 2 * x + b
  {
    if b == 1 { assert Or(1, 2 * x) == 2 * Or(0, x) + 1; }
  }

  /** The flag and the order share a byte without disturbing each other. */
  lemma PackingLaws(p: Page, order: nat)
    requires order < 0x80
    ensures p.SetOrder(order).Order() == order && p.SetOrder(order).IsFree() == p.IsFree()
    ensures p.SetFree().IsFree() && p.SetFree().Order() == p.Order()
    ensures !p.ClearFree().IsFree() && p.ClearFree().Order() == p.Order()
    ensures p.orderAndFree < 0x100 ==> p.SetFree().orderAndFree < 0x100
    ensures p.ClearFree().orderAndFree <= p.orderAndFree
    ensures p.SetOrder(order).orderAndFree < 0x100
  {
    OneBit(p.orderAndFree);
    OrShiftedBit(p.orderAndFree % 2, order);
  }

  lemma {:induction false} AndNotZero(x: nat)
    ensures AndNot(x, 0) == x
  {
    if x > 0 { AndNotZero(x / 2); }
  }

  datatype Cells = Cells(first: seq<nat>, pages: seq<Page>)

  /** The element of `s` at `i`, or null outside it. */
  function At(s: seq<nat>, i: int): nat {
    if 0 <= i < |s| then s[i] else NULL_BLOCK
  }

  /** The page at place `j` of list `s` points at its two neighbours. */
  predicate Node(pages: seq<Page>, s: seq<nat>, j: nat)
    requires j < |s|
  {
    s[j] < |pages| && pages[s[j]].next == At(s, j + 1) && pages[s[j]].prev == At(s, j - 1)
  }

  ghost predicate Chain(first: nat, pages: seq<Page>, s: seq<nat>) {
    first == At(s, 0) && forall j {:trigger Node(pages, s, j)} :: 0 <= j < |s| ==> Node(pages, s, j)
  }

  /** Every list is a well-formed doubly linked chain through the page records. */
  ghost predicate Linked(c: Cells, lists: seq<seq<nat>>) {
    && |c.first| == |lists| && |c.pages| <= NULL_BLOCK
    && forall k {:trigger Chain(c.first[k], c.pages, lists[k])} :: 0 <= k < |lists| ==>
         Chain(c.first[k], c.pages, lists[k])
  }

  /** No page is in two places. */
  ghost predicate Separate(lists: seq<seq<nat>>) {
    forall k, j, k', j' {:trigger lists[k][j], lists[k'][j']} ::
      (0 <= k < |lists| && 0 <= j < |lists[k]| && 0 <= k' < |lists| && 0 <= j' < |lists[k']| &&
       lists[k][j] == lists[k'][j']) ==> k == k' && j == j'
  }

  // ---------------------------------------------------------------- popping

  /** pop_free_list on a list that is not empty. */
  function PopCells(c: Cells, idx: nat): Cells
    requires idx < |c.first| && c.first[idx] < |c.pages|
  {
    var h := c.first[idx];
    var next := c.pages[h].next;
    // Repaired: the new head loses its predecessor, not its successor.
    var pages := if next < |c.pages| then c.pages[next := c.pages[next].(prev := NULL_BLOCK)] else c.pages;
    Cells(c.first[idx := next],
          pages[h := pages[h].(next := NULL_BLOCK, prev := NULL_BLOCK).ClearFree().SetOrder(idx)])
  }

  /** pop_free_list as the file has it: the new head's successor is cleared. */
  function PopCellsAsWritten(c: Cells, idx: nat): Cells
    requires idx < |c.first| && c.first[idx] < |c.pages|
  {
    var h := c.first[idx];
    var next := c.pages[h].next;
    var pages := if next < |c.pages| then c.pages[next := c.pages[next].(next := NULL_BLOCK)] else c.pages;
    Cells(c.first[idx := next],
          pages[h := pages[h].(next := NULL_BLOCK, prev := NULL_BLOCK).ClearFree().SetOrder(idx)])
  }

  /** Popping the first page leaves every list well formed, the popped one shorter by its head. */
  lemma PopLinked(c: Cells, lists: seq<seq<nat>>, idx: nat)
    requires Linked(c, lists) && Separate(lists) && idx < |lists| && lists[idx] != []
    ensures c.first[idx] == lists[idx][0] < |c.pages|
    ensures Linked(PopCells(c, idx), lists[idx := lists[idx][1..]])
  {
    var s := lists[idx];
    assert Chain(c.first[idx], c.pages, s);
    assert Node(c.pages, s, 0);
    var c', lists' := PopCells(c, idx), lists[idx := s[1..]];
    forall k | 0 <= k < |lists'| ensures Chain(c'.first[k], c'.pages, lists'[k]) {
      assert Chain(c.first[k], c.pages, lists[k]);
      forall j | 0 <= j < |lists'[k]| ensures Node(c'.pages, lists'[k], j) {
        if k == idx {
          assert Node(c.pages, s, j + 1);
          assert lists[idx][j + 1] != lists[idx][0];
          assert j > 0 ==> lists[idx][j + 1] != lists[idx][1];
        } else {
          assert Node(c.pages, lists[k], j);
          assert lists[k][j] != lists[idx][0];
          assert |s| > 1 ==> lists[k][j] != lists[idx][1];
        }
      }
    }
  }

  /** As written, popping keeps the lists well formed exactly when the list had one page; the
      chain of successors survives exactly when it had at most two, and is cut off otherwise. */
  lemma PopAsWritten(c: Cells, lists: seq<seq<nat>>, idx: nat)
    requires Linked(c, lists) && Separate(lists) && idx < |lists| && lists[idx] != []
    ensures c.first[idx] == lists[idx][0] < |c.pages|
    ensures Linked(PopCellsAsWritten(c, idx), lists[idx := lists[idx][1..]]) <==> |lists[idx]| == 1
    ensures |lists[idx]| >= 2 ==>
              lists[idx][1] < |c.pages| && PopCellsAsWritten(c, idx).pages[lists[idx][1]].next == NULL_BLOCK
    ensures |lists[idx]| >= 3 ==> c.pages[lists[idx][1]].next == lists[idx][2] < |c.pages|
  {
    var s := lists[idx];
    PopLinked(c, lists, idx);
    assert Chain(c.first[idx], c.pages, s);
    assert Node(c.pages, s, 0);
    if |s| >= 2 {
      assert Node(c.pages, s, 1);
      assert s[1] != s[0];
      var c' := PopCellsAsWritten(c, idx);
      var lists' := lists[idx := s[1..]];
      assert lists'[idx][0] == s[1] && c'.pages[s[1]].prev == s[0];
      assert !Node(c'.pages, lists'[idx], 0);
      assert !Chain(c'.first[idx], c'.pages, lists'[idx]);
      if |s| >= 3 { assert Node(c.pages, s, 2); }
    }
  }

  // ---------------------------------------------------------------- pushing

  /** push_free_list. */
  function PushCells(c: Cells, idx: nat, b: nat): Cells
    requires idx < |c.first| && b < |c.pages|
    requires c.first[idx] == NULL_BLOCK || c.first[idx] < |c.pages|
  {
    var page := c.pages[b].SetFree().SetOrder(idx);
    if c.first[idx] == NULL_BLOCK then
      Cells(c.first[idx := b], c.pages[b := page.(next := NULL_BLOCK, prev := NULL_BLOCK)])
    else
      var h := c.first[idx];
      var pages := c.pages[b := page];
      var pages' := pages[h := pages[h].(prev := b)];
      Cells(c.first[idx := b], pages'[b := pages'[b].(next := h, prev := NULL_BLOCK)])
  }

  /** Pushing a page that is in no list puts it at the front of its list. */
  lemma PushLinked(c: Cells, lists: seq<seq<nat>>, idx: nat, b: nat)
    requires Linked(c, lists) && Separate(lists) && idx < |lists| && b < |c.pages|
    requires forall k :: 0 <= k < |lists| ==> b !in lists[k]
    ensures c.first[idx] == NULL_BLOCK || c.first[idx] < |c.pages|
    ensures Linked(PushCells(c, idx, b), lists[idx := [b] + lists[idx]])
  {
    var s := lists[idx];
    assert Chain(c.first[idx], c.pages, s);
    assert s != [] ==> Node(c.pages, s, 0);
    var c', lists' := PushCells(c, idx, b), lists[idx := [b] + s];
    forall k | 0 <= k < |lists'| ensures Chain(c'.first[k], c'.pages, lists'[k]) {
      assert Chain(c.first[k], c.pages, lists[k]);
      forall j | 0 <= j < |lists'[k]| ensures Node(c'.pages, lists'[k], j) {
        if k == idx {
          if j > 0 {
            assert Node(c.pages, s, j - 1);
            assert lists[idx][j - 1] in lists[idx];
            assert j > 1 ==> lists[idx][j - 1] != lists[idx][0];
          }
        } else {
          assert Node(c.pages, lists[k], j);
          assert lists[k][j] in lists[k];
          assert s != [] ==> lists[k][j] != lists[idx][0];
        }
      }
    }
  }

  // ---------------------------------------------------------------- removing

  /** remove_from_list. */
  function RemoveCells(c: Cells, b: nat): Cells
    requires b < |c.pages| && c.pages[b].Order() < |c.first|
  {
    var page := c.pages[b];
    var pages := if page.prev < |c.pages| then c.pages[page.prev := c.pages[page.prev].(next := page.next)]
                 else c.pages;
    // Repaired: the successor's predecessor is updated too.
    var pages' := if page.next < |pages| then pages[page.next := pages[page.next].(prev := page.prev)]
                  else pages;
    var k := page.Order();
    Cells(if c.first[k] == b then c.first[k := page.next] else c.first, pages')
  }

  /** remove_from_list as the file has it: the successor still points back at the removed page. */
  function RemoveCellsAsWritten(c: Cells, b: nat): Cells
    requires b < |c.pages| && c.pages[b].Order() < |c.first|
  {
    var page := c.pages[b];
    var pages := if page.prev < |c.pages| then c.pages[page.prev := c.pages[page.prev].(next := page.next)]
                 else c.pages;
    var k := page.Order();
    Cells(if c.first[k] == b then c.first[k := page.next] else c.first, pages)
  }

  function Cut(s: seq<nat>, i: nat): seq<nat>
    requires i < |s|
  {
    s[..i] + s[i + 1..]
  }

  /** Removing the page at place `i` of list `idx` closes the gap and keeps every list. */
  lemma RemoveLinked(c: Cells, lists: seq<seq<nat>>, idx: nat, i: nat)
    requires Linked(c, lists) && Separate(lists) && idx < |lists| && i < |lists[idx]|
    requires lists[idx][i] < |c.pages| && c.pages[lists[idx][i]].Order() == idx
    ensures Linked(RemoveCells(c, lists[idx][i]), lists[idx := Cut(lists[idx], i)])
  {
    CutChain(c, lists, idx, i);
    forall k | 0 <= k < |lists| && k != idx
      ensures Chain(RemoveCells(c, lists[idx][i]).first[k], RemoveCells(c, lists[idx][i]).pages, lists[k])
    {
      OtherChain(c, lists, idx, i, k);
    }
  }

  lemma CutChain(c: Cells, lists: seq<seq<nat>>, idx: nat, i: nat)
    requires Linked(c, lists) && Separate(lists) && idx < |lists| && i < |lists[idx]|
    requires lists[idx][i] < |c.pages| && c.pages[lists[idx][i]].Order() == idx
    ensures var c' := RemoveCells(c, lists[idx][i]); Chain(c'.first[idx], c'.pages, Cut(lists[idx], i))
  {
    var s := lists[idx];
    var s', c' := Cut(s, i), RemoveCells(c, s[i]);
    assert Chain(c.first[idx], c.pages, s);
    assert Node(c.pages, s, i);
    assert i > 0 ==> Node(c.pages, s, i - 1);
    assert i + 1 < |s| ==> Node(c.pages, s, i + 1);
    assert c.first[idx] == s[i] <==> i == 0 by { assert Node(c.pages, s, 0) && s[0] == lists[idx][0]; }
    forall j | 0 <= j < |s'| ensures Node(c'.pages, s', j) {
      var j0 := if j >= i then j + 1 else j;
      assert Node(c.pages, s, j0);
      assert lists[idx][j0] != lists[idx][i];
      assert i > 0 && j0 != i - 1 ==> lists[idx][j0] != lists[idx][i - 1];
      assert i + 1 < |s| && j0 != i + 1 ==> lists[idx][j0] != lists[idx][i + 1];
    }
  }

  lemma OtherChain(c: Cells, lists: seq<seq<nat>>, idx: nat, i: nat, k: nat)
    requires Linked(c, lists) && Separate(lists) && idx < |lists| && i < |lists[idx]|
    requires lists[idx][i] < |c.pages| && c.pages[lists[idx][i]].Order() == idx
    requires k < |lists| && k != idx
    ensures var c' := RemoveCells(c, lists[idx][i]); Chain(c'.first[k], c'.pages, lists[k])
  {
    var s, c' := lists[idx], RemoveCells(c, lists[idx][i]);
    assert Chain(c.first[idx], c.pages, s) && Chain(c.first[k], c.pages, lists[k]);
    assert Node(c.pages, s, i);
    forall j | 0 <= j < |lists[k]| ensures Node(c'.pages, lists[k], j) {
      assert Node(c.pages, lists[k], j);
      assert lists[k][j] != lists[idx][i];
      assert i > 0 ==> lists[k][j] != lists[idx][i - 1];
      assert i + 1 < |s| ==> lists[k][j] != lists[idx][i + 1];
    }
  }

  /** As written, removal keeps the lists well formed exactly when the page is the last of its list. */
  lemma RemoveAsWritten(c: Cells, lists: seq<seq<nat>>, idx: nat, i: nat)
    requires Linked(c, lists) && Separate(lists) && idx < |lists| && i < |lists[idx]|
    requires lists[idx][i] < |c.pages| && c.pages[lists[idx][i]].Order() == idx
    ensures Linked(RemoveCellsAsWritten(c, lists[idx][i]), lists[idx := Cut(lists[idx], i)])
            <==> c.pages[lists[idx][i]].next == NULL_BLOCK
  {
    var s := lists[idx];
    RemoveLinked(c, lists, idx, i);
    assert Chain(c.first[idx], c.pages, s);
    assert Node(c.pages, s, i);
    if i + 1 < |s| {
      assert Node(c.pages, s, i + 1);
      assert s[i + 1] != s[i] && (i > 0 ==> s[i + 1] != s[i - 1]);
      var c', lists' := RemoveCellsAsWritten(c, s[i]), lists[idx := Cut(s, i)];
      assert lists'[idx][i] == s[i + 1] && c'.pages[s[i + 1]].prev == s[i];
      assert At(lists'[idx], i - 1) == At(s, i - 1);
      assert !Node(c'.pages, lists'[idx], i);
      assert !Chain(c'.first[idx], c'.pages, lists'[idx]);
    }
  }
}
