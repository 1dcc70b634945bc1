/** String building blocks of the two scripts: concatenation of fragments,
    Python's `str.join`, `str.replace`, and the separated sequences of
    fragments that the scripts' accumulation loops emit. */
module Text {

  /** The concatenation of a sequence of fragments. */
  function Concat(parts: seq<string>): string
  {
    if parts == [] then "" else parts[0] + Concat(parts[1..])
  }

  lemma {:induction false} ConcatAppend(a: seq<string>, b: seq<string>)
    ensures Concat(a + b) == Concat(a) + Concat(b)
  {
    if a == [] {
      assert a + b == b;
    } else {
      assert (a + b)[1..] == a[1..] + b;
      ConcatAppend(a[1..], b);
    }
  }

  /** Appending two fragments to a text that ends in a concatenation. */
  lemma AppendTwo(head: string, c: string, x: string, y: string)
    ensures head + c + x + y == head + (c + x + y)
  {
  }

  /** Appending one fragment to a text that ends in a concatenation. */
  lemma AppendOne(head: string, c: string, x: string)
    ensures head + c + x == head + (c + x)
  {
  }

  /** Python's `sep.join(items)`. */
  function Join(items: seq<string>, sep: string): string
  {
    if |items| == 0 then ""
    else if |items| == 1 then items[0]
    else items[0] + sep + Join(items[1..], sep)
  }

  /** The concatenation grows by the appended fragment. */
  lemma ConcatSnoc(parts: seq<string>, x: string)
    ensures Concat(parts + [x]) == Concat(parts) + x
  {
    ConcatAppend(parts, [x]);
    assert [x][1..] == [];
    assert Concat([x]) == x + Concat([]);
  }

  /** Joining one more item appends the separator and the item. */
  lemma {:induction false} JoinSnoc(items: seq<string>, x: string, sep: string)
    requires |items| >= 1
    ensures Join(items + [x], sep) == Join(items, sep) + sep + x
  {
    if |items| == 1 {
      assert (items + [x])[1..] == [x];
    } else {
      assert (items + [x])[1..] == items[1..] + [x];
      JoinSnoc(items[1..], x, sep);
      AppendTwo(items[0] + sep, Join(items[1..], sep), sep, x);
    }
  }

  lemma JoinFive(a: string, b: string, c: string, d: string, e: string, sep: string)
    ensures Join([a, b, c, d, e], sep) == a + sep + b + sep + c + sep + d + sep + e
  {
    assert [a] + [b] == [a, b] && [a, b] + [c] == [a, b, c];
    assert [a, b, c] + [d] == [a, b, c, d] && [a, b, c, d] + [e] == [a, b, c, d, e];
    JoinSnoc([a], b, sep);
    JoinSnoc([a, b], c, sep);
    JoinSnoc([a, b, c], d, sep);
    JoinSnoc([a, b, c, d], e, sep);
  }

  lemma ConcatSix(a: string, b: string, c: string, d: string, e: string, f: string)
    ensures Concat([a, b, c, d, e, f]) == a + b + c + d + e + f
  {
    assert [a] == [] + [a];
    assert [a] + [b] == [a, b] && [a, b] + [c] == [a, b, c] && [a, b, c] + [d] == [a, b, c, d];
    assert [a, b, c, d] + [e] == [a, b, c, d, e] && [a, b, c, d, e] + [f] == [a, b, c, d, e, f];
    ConcatSnoc([], a);
    ConcatSnoc([a], b);
    ConcatSnoc([a, b], c);
    ConcatSnoc([a, b, c], d);
    ConcatSnoc([a, b, c, d], e);
    ConcatSnoc([a, b, c, d, e], f);
  }

  /** How many fragments of `parts` are exactly `t`. */
  function Count(parts: seq<string>, t: string): nat
  {
    if parts == [] then 0
    else Count(parts[..|parts| - 1], t) + (if parts[|parts| - 1] == t then 1 else 0)
  }

  /** The fragments emitted by a loop over `n` items whose first `|items|`
      iterations have run: iteration `i` emits `items[i]` and then `sep`, or
      `last` when `i` is the final index `n - 1`. */
  function Separated(items: seq<string>, n: nat, sep: string, last: string): (r: seq<string>)
    requires |items| <= n
    ensures |r| == 2 * |items|
  {
    seq(2 * |items|, k requires 0 <= k < 2 * |items| =>
      if k % 2 == 0 then items[k / 2] else if k / 2 < n - 1 then sep else last)
  }

  /** One more iteration appends the item and its separator. */
  lemma SeparatedSnoc(items: seq<string>, x: string, n: nat, sep: string, last: string)
    requires |items| < n
    ensures Separated(items + [x], n, sep, last)
         == Separated(items, n, sep, last) + [x, if |items| < n - 1 then sep else last]
  {
    var a := Separated(items + [x], n, sep, last);
    var b := Separated(items, n, sep, last) + [x, if |items| < n - 1 then sep else last];
    assert |a| == |b|;
    forall k | 0 <= k < |a| ensures a[k] == b[k] {
      if k < 2 * |items| {
        assert (items + [x])[k / 2] == items[k / 2];
      } else if k == 2 * |items| {
        assert k / 2 == |items| && k % 2 == 0;
      } else {
        assert k / 2 == |items| && k % 2 == 1;
      }
    }
  }

  /** The text of one more iteration: the item, then its separator. */
  lemma SeparatedConcatSnoc(items: seq<string>, x: string, n: nat, sep: string, last: string)
    requires |items| < n
    ensures Concat(Separated(items + [x], n, sep, last))
         == Concat(Separated(items, n, sep, last)) + x + (if |items| < n - 1 then sep else last)
  {
    var tail := if |items| < n - 1 then sep else last;
    SeparatedSnoc(items, x, n, sep, last);
    ConcatAppend(Separated(items, n, sep, last), [x, tail]);
    assert [x, tail][1..] == [tail] && [tail][1..] == [];
    assert Concat([tail]) == tail + Concat([]);
    assert Concat([x, tail]) == x + tail;
  }

  lemma {:induction false} SeparatorCountPrefix(items: seq<string>, sep: string, last: string, m: nat)
    requires 1 <= |items| && m <= 2 * |items|
    requires forall i :: 0 <= i < |items| ==> items[i] != sep
    requires last != sep
    ensures Count(Separated(items, |items|, sep, last)[..m], sep)
         == if m / 2 < |items| - 1 then m / 2 else |items| - 1
  {
    var s := Separated(items, |items|, sep, last);
    if m > 0 {
      SeparatorCountPrefix(items, sep, last, m - 1);
      assert s[..m][..m - 1] == s[..m - 1];
      if (m - 1) % 2 == 0 {
        assert s[m - 1] == items[(m - 1) / 2];
      }
    }
  }

  /** Every item is followed by `sep` except the final one, so a loop over
      `n >= 1` items emits exactly `n - 1` separators. */
  lemma SeparatorCount(items: seq<string>, sep: string, last: string)
    requires 1 <= |items|
    requires forall i :: 0 <= i < |items| ==> items[i] != sep
    requires last != sep
    ensures Count(Separated(items, |items|, sep, last), sep) == |items| - 1
  {
    var s := Separated(items, |items|, sep, last);
    SeparatorCountPrefix(items, sep, last, 2 * |items|);
    assert s[..2 * |items|] == s;
  }

  lemma {:induction false} LastCountPrefix(items: seq<string>, sep: string, last: string, m: nat)
    requires 1 <= |items| && m <= 2 * |items|
    requires forall i :: 0 <= i < |items| ==> items[i] != last
    requires sep != last
    ensures Count(Separated(items, |items|, sep, last)[..m], last) == if m == 2 * |items| then 1 else 0
  {
    var s := Separated(items, |items|, sep, last);
    if m > 0 {
      LastCountPrefix(items, sep, last, m - 1);
      assert s[..m][..m - 1] == s[..m - 1];
      if (m - 1) % 2 == 0 {
        assert s[m - 1] == items[(m - 1) / 2];
      } else if m == 2 * |items| {
        assert s[m - 1] == last;
      } else {
        assert s[m - 1] == sep;
      }
    }
  }

  /** `last` is emitted exactly once, and it is the final fragment. */
  lemma LastCount(items: seq<string>, sep: string, last: string)
    requires 1 <= |items|
    requires forall i :: 0 <= i < |items| ==> items[i] != last
    requires sep != last
    ensures Count(Separated(items, |items|, sep, last), last) == 1
    ensures Separated(items, |items|, sep, last)[2 * |items| - 1] == last
  {
    var s := Separated(items, |items|, sep, last);
    LastCountPrefix(items, sep, last, 2 * |items|);
    assert s[..2 * |items|] == s;
  }

  /** `s` with every occurrence of `c` removed: Python's `s.replace(c, "")`
      for a one-character `c`. */
  function Without(s: string, c: char): (r: string)
    ensures forall x :: x in r <==> x in s && x != c
    ensures c !in s ==> r == s
  {
    if s == [] then [] else (if s[0] == c then [] else [s[0]]) + Without(s[1..], c)
  }

  /** Python's `s.replace(pat, rep)`: every non-overlapping occurrence of
      `pat`, scanning from the left, replaced by `rep`. */
  function Replace(s: string, pat: string, rep: string): string
    requires |pat| > 0
    decreases |s|
  {
    if |s| < |pat| then s
    else if s[..|pat|] == pat then rep + Replace(s[|pat|..], pat, rep)
    else [s[0]] + Replace(s[1..], pat, rep)
  }

  lemma {:induction false} ItemCountPrefix(items: seq<string>, sep: string, last: string, p: nat, m: nat)
    requires p < |items| && m <= 2 * |items|
    requires forall i :: 0 <= i < |items| && i != p ==> items[i] != items[p]
    requires sep != items[p] && last != items[p]
    ensures Count(Separated(items, |items|, sep, last)[..m], items[p]) == if m > 2 * p then 1 else 0
  {
    var s := Separated(items, |items|, sep, last);
    if m > 0 {
      ItemCountPrefix(items, sep, last, p, m - 1);
      assert s[..m][..m - 1] == s[..m - 1];
      if (m - 1) % 2 == 0 {
        assert s[m - 1] == items[(m - 1) / 2];
      }
    }
  }

  /** An item that differs from every other item and from both separators
      is emitted exactly once. */
  lemma ItemCount(items: seq<string>, sep: string, last: string, p: nat)
    requires p < |items|
    requires forall i :: 0 <= i < |items| && i != p ==> items[i] != items[p]
    requires sep != items[p] && last != items[p]
    ensures Count(Separated(items, |items|, sep, last), items[p]) == 1
  {
    var s := Separated(items, |items|, sep, last);
    ItemCountPrefix(items, sep, last, p, 2 * |items|);
    assert s[..2 * |items|] == s;
  }
}
