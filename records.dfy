/** The values and rows the two scripts pass around. A row is a Python dict
    built by `dict(zip(header, line))`; dicts keep insertion order (and
    `str(d)` shows it), so a row is modelled as its entries in that order. */
module Records {
  import opened Wrappers

  /** A value held by a row: CSV text, a boolean made by `bool(...)`, or `None`. */
  datatype Value = Text(s: string) | Flag(b: bool) | Absent

  /** Python's `str(v)`, which f-strings use. */
  function PyStr(v: Value): string
  {
    match v
    case Text(s) => s
    case Flag(b) => if b then "True" else "False"
    case Absent => "None"
  }

  /** Python's `bool(v)`: any non-empty text is true, "False" included. */
  function Truthy(v: Value): bool
  {
    match v
    case Text(s) => s != ""
    case Flag(b) => b
    case Absent => false
  }

  datatype Entry = Entry(key: string, val: Value)

  /** A dict, as its entries in insertion order. */
  type Record = seq<Entry>

  /** No key occurs twice, as in every dict. */
  predicate UniqueKeys(d: Record)
  {
    forall i, j :: 0 <= i < j < |d| ==> d[i].key != d[j].key
  }

  predicate AllText(d: Record)
  {
    forall i :: 0 <= i < |d| ==> d[i].val.Text?
  }

  /** `d[k]`, or `None` where the lookup would raise `KeyError`. */
  function Find(d: Record, k: string): Option<Value>
  {
    if d == [] then None else if d[0].key == k then Some(d[0].val) else Find(d[1..], k)
  }

  /** A lookup fails exactly when no entry has the key. */
  lemma {:induction false} FindNone(d: Record, k: string)
    ensures Find(d, k).None? <==> forall i :: 0 <= i < |d| ==> d[i].key != k
  {
    if d != [] {
      FindNone(d[1..], k);
      assert forall i :: 1 <= i < |d| ==> d[i] == d[1..][i - 1];
    }
  }

  lemma {:induction false} FindAt(d: Record, i: nat)
    requires UniqueKeys(d) && i < |d|
    ensures Find(d, d[i].key) == Some(d[i].val)
  {
    if i > 0 {
      assert d[0].key != d[i].key;
      FindAt(d[1..], i - 1);
    }
  }

  /** Appending an entry for another key does not change a lookup. */
  lemma {:induction false} FindSnoc(d: Record, e: Entry, k: string)
    requires e.key != k
    ensures Find(d + [e], k) == Find(d, k)
  {
    if d != [] {
      assert (d + [e])[1..] == d[1..] + [e];
      FindSnoc(d[1..], e, k);
    }
  }

  /** `d[k] = v`: an existing key keeps its position, a new key goes last. */
  function Put(d: Record, k: string, v: Value): Record
  {
    if d == [] then [Entry(k, v)]
    else if d[0].key == k then [Entry(k, v)] + d[1..]
    else [d[0]] + Put(d[1..], k, v)
  }

  /** After `d[k] = v`, `k` maps to `v` and every other key to what it did
      before; the existing keys keep their positions and a new key is
      appended; keys stay unique. */
  lemma PutSpec(d: Record, k: string, v: Value)
    ensures Find(Put(d, k, v), k) == Some(v)
    ensures forall j :: j != k ==> Find(Put(d, k, v), j) == Find(d, j)
    ensures Find(d, k).Some? ==> |Put(d, k, v)| == |d| && forall i :: 0 <= i < |d| ==> Put(d, k, v)[i].key == d[i].key
    ensures Find(d, k).None? ==> Put(d, k, v) == d + [Entry(k, v)]
    ensures forall i :: 0 <= i < |Put(d, k, v)| ==> Put(d, k, v)[i] == Entry(k, v) || Put(d, k, v)[i] in d
    ensures UniqueKeys(d) ==> UniqueKeys(Put(d, k, v))
  {
    PutFind(d, k, v);
    PutShape(d, k, v);
    PutEntries(d, k, v);
    if UniqueKeys(d) {
      PutUnique(d, k, v);
    }
  }

  lemma {:induction false} PutFind(d: Record, k: string, v: Value)
    ensures Find(Put(d, k, v), k) == Some(v)
    ensures forall j :: j != k ==> Find(Put(d, k, v), j) == Find(d, j)
  {
    if d != [] && d[0].key != k {
      PutFind(d[1..], k, v);
      assert Put(d, k, v)[1..] == Put(d[1..], k, v);
    }
  }

  lemma {:induction false} PutShape(d: Record, k: string, v: Value)
    ensures Find(d, k).Some? ==> |Put(d, k, v)| == |d| && forall i :: 0 <= i < |d| ==> Put(d, k, v)[i].key == d[i].key
    ensures Find(d, k).None? ==> Put(d, k, v) == d + [Entry(k, v)]
  {
    if d != [] && d[0].key != k {
      PutShape(d[1..], k, v);
      assert d == [d[0]] + d[1..];
    }
  }

  lemma {:induction false} PutEntries(d: Record, k: string, v: Value)
    ensures forall i :: 0 <= i < |Put(d, k, v)| ==> Put(d, k, v)[i] == Entry(k, v) || Put(d, k, v)[i] in d
  {
    if d != [] && d[0].key != k {
      PutEntries(d[1..], k, v);
      var r := Put(d, k, v);
      forall i | 0 <= i < |r| ensures r[i] == Entry(k, v) || r[i] in d {
        if i > 0 {
          assert r[i] == Put(d[1..], k, v)[i - 1];
        }
      }
    }
  }

  lemma {:induction false} PutUnique(d: Record, k: string, v: Value)
    requires UniqueKeys(d)
    ensures UniqueKeys(Put(d, k, v))
  {
    if d != [] && d[0].key != k {
      var t := Put(d[1..], k, v);
      PutUnique(d[1..], k, v);
      PutAvoidsHead(d, k, v);
      var r := Put(d, k, v);
      assert r == [d[0]] + t;
      forall i, j | 0 <= i < j < |r| ensures r[i].key != r[j].key {
        if i > 0 {
          assert r[i] == t[i - 1] && r[j] == t[j - 1];
        }
      }
    }
  }

  lemma PutAvoidsHead(d: Record, k: string, v: Value)
    requires UniqueKeys(d) && d != [] && d[0].key != k
    ensures forall j :: 0 <= j < |Put(d[1..], k, v)| ==> Put(d[1..], k, v)[j].key != d[0].key
  {
    var t := Put(d[1..], k, v);
    PutEntries(d[1..], k, v);
    forall j | 0 <= j < |t| ensures t[j].key != d[0].key {
      if t[j] != Entry(k, v) {
        var m :| 0 <= m < |d[1..]| && d[1..][m] == t[j];
        assert d[m + 1] == t[j];
      }
    }
  }

  /** `dict(zip(header, line))` added to `acc`: pairs up to the shorter of the
      two, a repeated header name overwriting the earlier value. */
  function ZipInto(acc: Record, header: seq<string>, line: seq<string>): Record
    decreases |header|
  {
    if header == [] || line == [] then acc
    else ZipInto(Put(acc, header[0], Text(line[0])), header[1..], line[1..])
  }

  function ZipRecord(header: seq<string>, line: seq<string>): Record
  {
    ZipInto([], header, line)
  }

  lemma {:induction false} ZipIntoWellFormed(acc: Record, header: seq<string>, line: seq<string>)
    requires UniqueKeys(acc) && AllText(acc)
    ensures UniqueKeys(ZipInto(acc, header, line)) && AllText(ZipInto(acc, header, line))
    decreases |header|
  {
    if header != [] && line != [] {
      PutSpec(acc, header[0], Text(line[0]));
      ZipIntoWellFormed(Put(acc, header[0], Text(line[0])), header[1..], line[1..]);
    }
  }

  /** Every row made by zipping has unique keys and text values. */
  lemma ZipRecordWellFormed(header: seq<string>, line: seq<string>)
    ensures UniqueKeys(ZipRecord(header, line)) && AllText(ZipRecord(header, line))
  {
    ZipIntoWellFormed([], header, line);
  }

  lemma {:induction false} ZipIntoExact(acc: Record, header: seq<string>, line: seq<string>)
    requires NoDup(header) && |line| >= |header|
    requires forall i, j :: 0 <= i < |acc| && 0 <= j < |header| ==> acc[i].key != header[j]
    ensures ZipInto(acc, header, line) == acc + Pairs(header, line)
    decreases |header|
  {
    var z := Pairs(header, line);
    if header == [] {
      assert acc + z == acc;
    } else {
      var e := Entry(header[0], Text(line[0]));
      FindNone(acc, header[0]);
      var acc' := Put(acc, header[0], Text(line[0]));
      PutSpec(acc, header[0], Text(line[0]));
      assert acc' == acc + [e];
      var h', l' := header[1..], line[1..];
      assert NoDup(h') by {
        forall i, j | 0 <= i < j < |h'| ensures h'[i] != h'[j] {
          assert h'[i] == header[i + 1] && h'[j] == header[j + 1];
        }
      }
      forall i, j | 0 <= i < |acc'| && 0 <= j < |h'| ensures acc'[i].key != h'[j] {
        assert h'[j] == header[j + 1];
        if i < |acc| {
          assert acc'[i] == acc[i];
        } else {
          assert acc'[i] == e;
        }
      }
      ZipIntoExact(acc', h', l');
      var z' := Pairs(h', l');
      PairsCons(header, line);
      assert acc' + z' == acc + z;
    }
  }

  function Pairs(header: seq<string>, line: seq<string>): Record
    requires |line| >= |header|
  {
    seq(|header|, i requires 0 <= i < |header| => Entry(header[i], Text(line[i])))
  }

  lemma PairsCons(header: seq<string>, line: seq<string>)
    requires |line| >= |header| > 0
    ensures Pairs(header, line) == [Entry(header[0], Text(line[0]))] + Pairs(header[1..], line[1..])
  {
    var z, z' := Pairs(header, line), Pairs(header[1..], line[1..]);
    var e := Entry(header[0], Text(line[0]));
    forall k | 0 <= k < |z| ensures z[k] == ([e] + z')[k] {
      if k > 0 {
        assert ([e] + z')[k] == z'[k - 1];
      }
    }
  }

  /** With distinct header names and a line at least as wide as the header,
      the row pairs each name with the text at its position, in header order. */
  lemma ZipRecordExact(header: seq<string>, line: seq<string>)
    requires NoDup(header) && |line| >= |header|
    ensures ZipRecord(header, line) == Pairs(header, line)
  {
    ZipIntoExact([], header, line);
  }

  /** `[d[k] for d in data]`, which raises `KeyError(k)` on the first row
      without `k`. */
  function Column(data: seq<Record>, k: string): (r: Result<seq<Value>>)
    ensures r.Ok? <==> forall i :: 0 <= i < |data| ==> Find(data[i], k).Some?
    ensures r.Ok? ==> |r.value| == |data|
    ensures r.Ok? ==> forall i :: 0 <= i < |data| ==> Find(data[i], k) == Some(r.value[i])
    ensures r.Err? ==> r.error == KeyError(k)
  {
    if data == [] then Ok([])
    else match Find(data[0], k)
      case None => Err(KeyError(k))
      case Some(v) =>
        var rest :- Column(data[1..], k);
        assert forall i :: 1 <= i < |data| ==> data[i] == data[1..][i - 1];
        Ok([v] + rest)
  }

  predicate NoDup<T(==)>(s: seq<T>)
  {
    forall i, j :: 0 <= i < j < |s| ==> s[i] != s[j]
  }

  /** The distinct elements of `xs` in order of first occurrence: how the model
      enumerates the Python sets `set(xs)`, whose order the language leaves open. */
  function Distinct<T(==,!new)>(xs: seq<T>): (r: seq<T>)
    ensures NoDup(r)
    ensures forall x :: x in r <==> x in xs
  {
    if xs == [] then []
    else
      var d := Distinct(xs[..|xs| - 1]);
      var x := xs[|xs| - 1];
      assert xs == xs[..|xs| - 1] + [x];
      if x in d then d else d + [x]
  }

  lemma {:induction false} NoDupCard<T>(s: seq<T>)
    requires NoDup(s)
    ensures |set x | x in s| == |s|
  {
    if s != [] {
      var init := s[..|s| - 1];
      NoDupCard(init);
      assert (set x | x in s) == (set x | x in init) + {s[|s| - 1]};
      assert s[|s| - 1] !in (set x | x in init);
    }
  }

  /** The distinct enumeration has as many elements as the set it enumerates. */
  lemma DistinctCard<T(!new)>(xs: seq<T>)
    ensures |Distinct(xs)| == |set x | x in xs|
  {
    NoDupCard(Distinct(xs));
    assert (set x | x in Distinct(xs)) == (set x | x in xs);
  }
}
