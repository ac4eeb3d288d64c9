/** The order in which placeholders are looked for in a request: longer ones first, then by name. */
module OAuthOrder {
  import opened NameOrder

  predicate Before(a: string, b: string) {
    |a| > |b| || (|a| == |b| && NameLess(a, b))
  }

  predicate Arranged(order: seq<string>) {
    forall i, j :: 0 <= i < j < |order| ==> Before(order[i], order[j])
  }

  /** Exactly these placeholders, each once, in order. */
  ghost predicate Arrangement(order: seq<string>, placeholders: set<string>) {
    Arranged(order) && forall p :: p in order <==> p in placeholders
  }

  lemma PlaceholdersAreOrdered(a: string, b: string)
    ensures a == b || Before(a, b) || Before(b, a)
    ensures !(Before(a, b) && Before(b, a)) && !Before(a, a)
  {
    NamesAreOrdered(a, b);
    NamesAreOrdered(a, a);
  }

  lemma PlaceholdersAreTransitive(a: string, b: string, c: string)
    requires Before(a, b) && Before(b, c)
    ensures Before(a, c)
  {
    if |a| == |b| == |c| {
      NamesAreTransitive(a, b, c);
    }
  }

  lemma ArrangedTail(order: seq<string>)
    requires Arranged(order) && order != []
    ensures Arranged(order[1..]) && forall p :: p in order[1..] ==> Before(order[0], p)
  {
    hide Before;
    assert forall i :: 0 <= i < |order| - 1 ==> order[1..][i] == order[i + 1];
  }

  lemma PrependArranged(first: string, rest: seq<string>)
    requires Arranged(rest) && forall p :: p in rest ==> Before(first, p)
    ensures Arranged([first] + rest)
  {
    hide Before;
    var all := [first] + rest;
    forall i, j | 0 <= i < j < |all| ensures Before(all[i], all[j]) {
      assert all[j] == rest[j - 1] && rest[j - 1] in rest;
      assert i > 0 ==> all[i] == rest[i - 1];
    }
  }

  /** Places p before the first placeholder that comes after it. */
  function Insert(order: seq<string>, p: string): (r: seq<string>)
    ensures forall x :: x in r <==> x in order || x == p
  {
    if order != [] && Before(order[0], p) then
      assert order == [order[0]] + order[1..];
      [order[0]] + Insert(order[1..], p)
    else [p] + order
  }

  lemma {:induction false} InsertArranges(order: seq<string>, p: string)
    requires Arranged(order) && p !in order
    ensures Arranged(Insert(order, p))
  {
    hide Before, Arranged;
    if order == [] {
      NoneArranged(p);
      assert [p] + [] == [p];
    } else {
      var first, rest := order[0], order[1..];
      assert order == [first] + rest;
      ArrangedTail(order);
      PlaceholdersAreOrdered(first, p);
      if Before(first, p) {
        InsertArranges(rest, p);
        PrependArranged(first, Insert(rest, p));
      } else {
        forall x | x in order ensures Before(p, x) {
          if x != first {
            PlaceholdersAreTransitive(p, first, x);
          }
        }
        PrependArranged(p, order);
      }
    }
  }

  lemma NoneArranged(p: string)
    ensures Arranged([]) && Arranged([p])
  {
  }

  /** There is one such order, whatever order the placeholders are visited in. */
  lemma {:induction false} OneArrangement(a: seq<string>, b: seq<string>, placeholders: set<string>)
    requires Arrangement(a, placeholders) && Arrangement(b, placeholders)
    ensures a == b
  {
    hide Before, Arranged;
    if a == [] {
      assert forall i :: 0 <= i < |b| ==> b[i] in b;
    } else {
      assert a[0] in b;
      var first := a[0];
      assert a == [first] + a[1..] && b == [b[0]] + b[1..];
      ArrangedTail(a);
      ArrangedTail(b);
      PlaceholdersAreOrdered(first, b[0]);
      assert first in b && b[0] in a;
      assert first == b[0];
      PlaceholdersAreOrdered(first, first);
      OneArrangement(a[1..], b[1..], placeholders - {first});
    }
  }

  ghost function Ordered(placeholders: set<string>): (order: seq<string>)
    ensures Arrangement(order, placeholders)
  {
    if placeholders == {} then []
    else
      var p :| p in placeholders;
      var rest := Ordered(placeholders - {p});
      InsertArranges(rest, p);
      Insert(rest, p)
  }

  /** Collects the placeholders in any order and sorts them. */
  method SortPlaceholders(placeholders: set<string>) returns (order: seq<string>)
    ensures order == Ordered(placeholders)
  {
    hide Before, Arranged;
    order := [];
    NoneArranged("");
    var left := placeholders;
    while left != {}
      invariant left <= placeholders && Arrangement(order, placeholders - left)
    {
      var p :| p in left;
      InsertArranges(order, p);
      order, left := Insert(order, p), left - {p};
    }
    OneArrangement(order, Ordered(placeholders), placeholders);
  }

  /** In such an order no placeholder occurs twice, and none is longer than an earlier one. */
  lemma Descending(order: seq<string>)
    requires Arranged(order)
    ensures forall i, j :: 0 <= i < j < |order| ==> order[i] != order[j] && |order[i]| >= |order[j]|
  {
    forall i, j | 0 <= i < j < |order| ensures order[i] != order[j] && |order[i]| >= |order[j]| {
      PlaceholdersAreOrdered(order[i], order[j]);
    }
  }
}
