/** The inventory line item: bounded text fields, a clamped quantity, and a
    listener told when a decrement brings the quantity to zero. */
module Inventory {
  import opened Java

  /** Longest title and description an item keeps. */
  const TITLE_LIMIT: nat := 20
  const DESCRIPTION_LIMIT: nat := 40

  /** Identity of an object registered through `setQtyZeroListener`. */
  type Listener = nat

  /** `getSubstring(s, a)`: the first `min(a, |s|)` characters of `s`. */
  function Substring(s: string, a: nat): (r: string)
    ensures |r| <= a && r <= s
    ensures |s| <= a ==> r == s
    ensures |s| > a ==> |r| == a
  {
    s[..if a < |s| then a else |s|]
  }

  /** Truncating an already truncated text changes nothing. */
  lemma SubstringIdempotent(s: string, a: nat)
    ensures Substring(Substring(s, a), a) == Substring(s, a)
  {
  }

  /** The three operations that change an item's quantity. */
  datatype QtyOp = SetQuantity(q: Int32) | Increment | Decrement

  /** The quantity after applying `op` to an item holding `q`. */
  function ApplyQty(q: int, op: QtyOp): (r: int)
    ensures 0 <= q <= MAX_VALUE ==> 0 <= r <= MAX_VALUE
  {
    match op
    case SetQuantity(v) => if 0 < v < MAX_VALUE then v else 0
    case Increment => if q < MAX_VALUE then q + 1 else q
    case Decrement => if q > 0 then q - 1 else q
  }

  /** `setQuantity(v)` keeps `v` exactly when 0 <= v < MAX_VALUE (0 is kept as
      0); every other value, `MAX_VALUE` and negatives included, becomes 0. */
  lemma SetQuantityClamps(q: int, v: Int32)
    ensures ApplyQty(q, SetQuantity(v)) == v <==> 0 <= v < MAX_VALUE
    ensures ApplyQty(q, SetQuantity(v)) != v ==> ApplyQty(q, SetQuantity(v)) == 0
    ensures ApplyQty(q, SetQuantity(v)) < MAX_VALUE
  {
  }

  /** `incrementQty` adds one below `MAX_VALUE` and never wraps around. */
  lemma IncrementSaturates(q: Int32)
    ensures q < MAX_VALUE ==> ApplyQty(q, Increment) == q + 1
    ensures q == MAX_VALUE ==> ApplyQty(q, Increment) == MAX_VALUE
  {
  }

  /** The quantity after a whole script of operations. */
  function RunQty(q: int, ops: seq<QtyOp>): int
    decreases |ops|
  {
    if ops == [] then q else RunQty(ApplyQty(q, ops[0]), ops[1..])
  }

  /** Whatever the script, the quantity stays within [0, MAX_VALUE]. */
  lemma {:induction false} RunQtyStaysInRange(q: int, ops: seq<QtyOp>)
    requires 0 <= q <= MAX_VALUE
    ensures 0 <= RunQty(q, ops) <= MAX_VALUE
    decreases |ops|
  {
    if ops != [] {
      RunQtyStaysInRange(ApplyQty(q, ops[0]), ops[1..]);
    }
  }

  /** The listeners told by one `decrementQty` on an item holding `q`. */
  function ZeroNotice(q: int, listener: Option<Listener>): (r: seq<Listener>)
    ensures r != [] <==> ApplyQty(q, Decrement) == 0 && q != 0 && listener.Some?
    ensures r != [] ==> r == [listener.value]
  {
    if q == 1 && listener.Some? then [listener.value] else []
  }

  /** `k` decrements in a row: the final quantity and the notices delivered. */
  function Countdown(q: int, listener: Option<Listener>, k: nat): (int, seq<Listener>)
    decreases k
  {
    if k == 0 then (q, [])
    else
      var rest := Countdown(ApplyQty(q, Decrement), listener, k - 1);
      (rest.0, ZeroNotice(q, listener) + rest.1)
  }

  /** Decrementing at zero does nothing and tells nobody. */
  lemma {:induction false} CountdownAtZero(listener: Option<Listener>, k: nat)
    ensures Countdown(0, listener, k) == (0, [])
    decreases k
  {
    if k > 0 {
      CountdownAtZero(listener, k - 1);
      assert ZeroNotice(0, listener) + Countdown(0, listener, k - 1).1 == [];
    }
  }

  /** From `n > 0`, the listener is told exactly once, on the `n`-th
      decrement; before it nobody is told and after it nothing changes. */
  lemma {:induction false} CountdownNotifiesOnceAtZero(n: nat, listener: Listener, k: nat)
    requires n > 0
    ensures Countdown(n, Some(listener), k) == if k < n then (n - k, []) else (0, [listener])
    decreases k
  {
    if k > 0 {
      if n == 1 {
        CountdownAtZero(Some(listener), k - 1);
        assert ZeroNotice(1, Some(listener)) + Countdown(0, Some(listener), k - 1).1 == [listener];
      } else {
        CountdownNotifiesOnceAtZero(n - 1, listener, k - 1);
        assert ZeroNotice(n, Some(listener)) + Countdown(n - 1, Some(listener), k - 1).1
            == Countdown(n - 1, Some(listener), k - 1).1;
      }
    }
  }

  /** With no listener attached, no decrement tells anybody. */
  lemma {:induction false} CountdownWithoutListenerIsSilent(q: int, k: nat)
    ensures Countdown(q, None, k).1 == []
    decreases k
  {
    if k > 0 {
      CountdownWithoutListenerIsSilent(ApplyQty(q, Decrement), k - 1);
    }
  }

  /** The text of `toString()`: "[ <title> has a quantity of <quantity> ]".
      The title stands right after the opening "[ ", the fixed phrase follows
      it, and what lies between the phrase and the closing " ]" is the
      decimal text of the quantity: digits that read back as the quantity,
      after a '-' when it is negative. */
  function Describe(title: string, quantity: int): (r: string)
    ensures |r| >= |title| + 23
    ensures r[..2] == "[ " && r[2..2 + |title|] == title
    ensures r[2 + |title|..|title| + 21] == " has a quantity of "
    ensures r[|r| - 2..] == " ]"
    ensures quantity >= 0 ==> WritesNumber(r[|title| + 21..|r| - 2], quantity, 10)
    ensures quantity < 0 ==> r[|title| + 21] == '-' && WritesNumber(r[|title| + 22..|r| - 2], -quantity, 10)
  {
    var d := IntToString(quantity, 10);
    var r := "[ " + title + " has a quantity of " + d + " ]";
    assert r[2..2 + |title|] == title;
    assert r[2 + |title|..|title| + 21] == " has a quantity of ";
    assert r[|title| + 21..|r| - 2] == d;
    assert quantity < 0 ==> r[|title| + 22..|r| - 2] == d[1..];
    r
  }

  /** `Describe` is the frame around the title, the phrase and the digits. */
  lemma DescribeShape(title: string, quantity: int)
    ensures Describe(title, quantity) == "[ " + (title + " has a quantity of " + IntToString(quantity, 10)) + " ]"
  {
  }

  /** Length of the run of decimal digits that ends `s`. */
  function TrailingDigits(s: string): (n: nat)
    ensures n <= |s|
    decreases |s|
  {
    if s != [] && '0' <= s[|s| - 1] <= '9' then 1 + TrailingDigits(s[..|s| - 1]) else 0
  }

  /** Digits appended after a non-digit form exactly the trailing run. */
  lemma {:induction false} TrailingDigitsAfterNonDigit(p: string, d: string)
    requires p != [] && !('0' <= p[|p| - 1] <= '9')
    requires forall i :: 0 <= i < |d| ==> '0' <= d[i] <= '9'
    ensures TrailingDigits(p + d) == |d|
    decreases |d|
  {
    if d == [] {
      assert p + d == p;
    } else {
      assert (p + d)[..|p + d| - 1] == p + d[..|d| - 1];
      TrailingDigitsAfterNonDigit(p, d[..|d| - 1]);
    }
  }

  /** Equal texts with the same frame around them have equal insides. */
  lemma UnframeEqual(pre: string, x1: string, x2: string, post: string)
    requires pre + x1 + post == pre + x2 + post
    ensures x1 == x2
  {
    var s := pre + x1 + post;
    assert x1 == s[|pre|..|s| - |post|];
    assert x2 == (pre + x2 + post)[|pre|..|s| - |post|];
  }

  /** Two equal concatenations with equally long tails split the same way. */
  lemma SplitEqualTails(a: string, d1: string, b: string, d2: string)
    requires a + d1 == b + d2 && |d1| == |d2|
    ensures a == b && d1 == d2
  {
    var s := a + d1;
    assert a == s[..|a|] && d1 == s[|a|..];
    assert b == (b + d2)[..|b|] && d2 == (b + d2)[|b|..];
  }

  /** For non-negative quantities the text gives back both title and quantity. */
  lemma DescribeInjective(t1: string, q1: nat, t2: string, q2: nat)
    requires Describe(t1, q1) == Describe(t2, q2)
    ensures t1 == t2 && q1 == q2
  {
    var sep := " has a quantity of ";
    var d1, d2 := IntToString(q1, 10), IntToString(q2, 10);
    DescribeShape(t1, q1);
    DescribeShape(t2, q2);
    UnframeEqual("[ ", t1 + sep + d1, t2 + sep + d2, " ]");
    DecimalIsDigits(q1);
    DecimalIsDigits(q2);
    TrailingDigitsAfterNonDigit(t1 + sep, d1);
    TrailingDigitsAfterNonDigit(t2 + sep, d2);
    SplitEqualTails(t1 + sep, d1, t2 + sep, d2);
    assert ParseDigits(d1, 10) == q1 && ParseDigits(d2, 10) == q2;
    SplitEqualTails(t1, sep, t2, sep);
  }

  class InventoryItem {
    var id: Int32
    var title: string
    var description: string
    var quantity: Int32
    var userId: Int32
    var listener: Option<Listener>
    /** Every `onQuantityZero(this)` delivered so far, by listener, in order. */
    ghost var notices: seq<Listener>

    /** The bounds every item built by the constructor keeps, and every
        mutator preserves. */
    ghost predicate Valid()
      reads this
    {
      |title| <= TITLE_LIMIT && |description| <= DESCRIPTION_LIMIT && 0 <= quantity
    }

    /** `id` and `userId` are stored as given; title, description and
        quantity go through their setters. */
    constructor (id: Int32, title: string, description: string, quantity: Int32, userId: Int32)
      ensures Valid()
      ensures this.id == id && this.userId == userId
      ensures this.title == Substring(title, TITLE_LIMIT)
      ensures this.description == Substring(description, DESCRIPTION_LIMIT)
      ensures this.quantity == ApplyQty(0, QtyOp.SetQuantity(quantity))
      ensures listener == None && notices == []
    {
      this.id := id;
      this.title := "";
      this.description := "";
      this.quantity := 0;
      this.userId := userId;
      listener := None;
      notices := [];
      new;
      SetTitle(title);
      SetDescription(description);
      SetQuantity(quantity);
    }

    method SetQtyZeroListener(l: Listener)
      modifies this`listener
      ensures listener == Some(l)
      ensures Valid() == old(Valid())
    {
      listener := Some(l);
    }

    method UnsetQtyZeroListener()
      modifies this`listener
      ensures listener == None
      ensures Valid() == old(Valid())
    {
      listener := None;
    }

    method SetTitle(t: string)
      modifies this`title
      ensures old(Valid()) ==> Valid()
      ensures title == Substring(t, TITLE_LIMIT)
    {
      title := Substring(t, TITLE_LIMIT);
    }

    method SetDescription(d: string)
      modifies this`description
      ensures old(Valid()) ==> Valid()
      ensures description == Substring(d, DESCRIPTION_LIMIT)
    {
      description := Substring(d, DESCRIPTION_LIMIT);
    }

    method SetQuantity(q: Int32)
      modifies this`quantity
      ensures old(Valid()) ==> Valid()
      ensures quantity == ApplyQty(old(quantity), QtyOp.SetQuantity(q))
    {
      quantity := if q > 0 && q < MAX_VALUE then q else 0;
    }

    method IncrementQty()
      modifies this`quantity
      ensures old(Valid()) ==> Valid()
      ensures quantity == ApplyQty(old(quantity), Increment)
    {
      if quantity < MAX_VALUE {
        quantity := quantity + 1;
      }
    }

    method DecrementQty()
      modifies this`quantity, this`notices
      ensures old(Valid()) ==> Valid()
      ensures quantity == ApplyQty(old(quantity), Decrement)
      ensures notices == old(notices) + ZeroNotice(old(quantity), listener)
    {
      if quantity > 0 {
        quantity := quantity - 1;
        if quantity == 0 && listener.Some? {
          // listener.onQuantityZero(this)
          notices := notices + [listener.value];
        }
      }
    }

    /** The item's text is the `Describe` layout of its title and quantity. */
    function ToString(): (r: string)
      reads this
      ensures r == Describe(title, quantity)
    {
      Describe(title, quantity)
    }

    /** The copy `new InventoryItem(getId(), getTitle(), getDescription(),
        getQuantity(), getUserId())` sends the fields through the setters
        again. For an item within its bounds it keeps id, title, description
        and userId, and the quantity unless it is exactly `MAX_VALUE`, which
        the quantity setter turns into 0; the copy has no listener. */
    method CopyFromGetters() returns (c: InventoryItem)
      ensures fresh(c) && c.Valid()
      ensures c.id == id && c.userId == userId
      ensures c.title == Substring(title, TITLE_LIMIT) && c.description == Substring(description, DESCRIPTION_LIMIT)
      ensures c.quantity == ApplyQty(0, QtyOp.SetQuantity(quantity))
      ensures Valid() ==> c.title == title && c.description == description
      ensures Valid() ==> c.quantity == if quantity == MAX_VALUE then 0 else quantity
      ensures c.listener == None && c.notices == []
    {
      c := new InventoryItem(id, title, description, quantity, userId);
    }
  }
}
