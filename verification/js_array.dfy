/**
 The three pieces of JavaScript's array semantics that the source relies on:
 `findLastIndex` with a predicate, element access `a[i]` with an index that may be
 out of range, and `join("")` over elements that may be `undefined`.
 */
module JsArray {
  import opened Wrappers

  /** `i` is the greatest index whose element satisfies `p`. */
  ghost predicate IsLastMatch<T>(s: seq<T>, p: T -> bool, i: int) {
    && 0 <= i < |s|
    && p(s[i])
    && forall j | i < j < |s| :: !p(s[j])
  }

  /** No element of `s` satisfies `p`. */
  ghost predicate NoMatch<T>(s: seq<T>, p: T -> bool) {
    forall j | 0 <= j < |s| :: !p(s[j])
  }

  /**
   `Array.prototype.findLastIndex`: scans from the end and answers the index of the
   first element (from the right) that satisfies `p`, or -1 when there is none.
   */
  function FindLastIndex<T>(s: seq<T>, p: T -> bool): (i: int)
    ensures -1 <= i < |s|
    ensures i == -1 <==> NoMatch(s, p)
    ensures i != -1 ==> IsLastMatch(s, p, i)
    decreases |s|
  {
    if |s| == 0 then -1
    else if p(s[|s| - 1]) then |s| - 1
    else FindLastIndex(s[..|s| - 1], p)
  }

  /**
   Element access `s[i]`: any index outside `0 .. |s|-1`, -1 included, names no
   element and reads `undefined`.
   */
  function At<T>(s: seq<T>, i: int): Option<T> {
    if 0 <= i < |s| then Some(s[i]) else None
  }

  /** How `join` renders one element: `undefined` becomes the empty string. */
  function Render(x: Option<string>): string {
    match x
    case None => ""
    case Some(t) => t
  }

  /** `items.join("")`: the rendered elements, left to right, with nothing between them. */
  function Join(items: seq<Option<string>>): string
    decreases |items|
  {
    if |items| == 0 then ""
    else Join(items[..|items| - 1]) + Render(items[|items| - 1])
  }

  /** Joining a concatenation is concatenating the joins: the order of elements is kept. */
  lemma {:induction false} JoinAppend(a: seq<Option<string>>, b: seq<Option<string>>)
    ensures Join(a + b) == Join(a) + Join(b)
    decreases |b|
  {
    if |b| == 0 {
      assert a + b == a;
    } else {
      var b', x := b[..|b| - 1], b[|b| - 1];
      var ab := a + b;
      assert ab[..|ab| - 1] == a + b';
      assert ab[|ab| - 1] == x;
      calc {
        Join(ab);
        Join(a + b') + Render(x);
        { JoinAppend(a, b'); }
        Join(a) + Join(b') + Render(x);
        Join(a) + Join(b);
      }
    }
  }

  /** A single element joins to its own rendering. */
  lemma JoinSingleton(x: Option<string>)
    ensures Join([x]) == Render(x)
  {
  }

  /**
   Element `k` appears, rendered, in the joined string right after the rendering of
   the elements before it.
   */
  lemma {:induction false} JoinPlacesEach(items: seq<Option<string>>, k: int)
    requires 0 <= k < |items|
    ensures |Join(items[..k])| + |Render(items[k])| <= |Join(items)|
    ensures Join(items)[|Join(items[..k])| .. |Join(items[..k])| + |Render(items[k])|] == Render(items[k])
  {
    assert items == items[..k] + [items[k]] + items[k + 1..];
    JoinAppend(items[..k] + [items[k]], items[k + 1..]);
    JoinAppend(items[..k], [items[k]]);
    JoinSingleton(items[k]);
  }

  /** The join is empty exactly when every element renders as the empty string. */
  lemma {:induction false} JoinEmptyIff(items: seq<Option<string>>)
    ensures Join(items) == "" <==> forall k | 0 <= k < |items| :: Render(items[k]) == ""
    decreases |items|
  {
    if |items| != 0 {
      var init := items[..|items| - 1];
      JoinEmptyIff(init);
      assert forall k | 0 <= k < |init| :: init[k] == items[k];
    }
  }
}
