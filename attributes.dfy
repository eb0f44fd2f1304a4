/** The `key:value` settings file (GeometryEngine/Shared/AttributeParser.cpp).
    The attribute list is a `std::map<std::string, std::string>`, an ordered
    container: it is modelled as the sequence of its entries in ascending
    key order, which is also the order `save` writes them in.  The file at
    the parser's path is a field holding its text, `None` while it does not
    exist. */
module Attributes {
  import opened Util

  type Entry = (string, string)

  /** `std::string`'s `<`: lexicographic by character, a proper prefix
      first. */
  predicate LexLess(a: string, b: string)
    decreases |a|
  {
    |b| > 0 && (|a| == 0 || a[0] < b[0] || (a[0] == b[0] && LexLess(a[1..], b[1..])))
  }

  lemma {:induction false} LexLessIrreflexive(a: string)
    ensures !LexLess(a, a)
    decreases |a|
  {
    if |a| > 0 {
      LexLessIrreflexive(a[1..]);
    }
  }

  lemma {:induction false} LexLessTransitive(a: string, b: string, c: string)
    requires LexLess(a, b) && LexLess(b, c)
    ensures LexLess(a, c)
    decreases |a|
  {
    if |a| > 0 && a[0] == b[0] && b[0] == c[0] {
      LexLessTransitive(a[1..], b[1..], c[1..]);
    }
  }

  lemma {:induction false} LexLessTotal(a: string, b: string)
    ensures a == b || LexLess(a, b) || LexLess(b, a)
    decreases |a|
  {
    if |a| > 0 && |b| > 0 && a[0] == b[0] {
      LexLessTotal(a[1..], b[1..]);
      if a[1..] == b[1..] {
        assert a == [a[0]] + a[1..] && b == [b[0]] + b[1..];
      }
    }
  }

  /** Keys strictly ascending, hence distinct. */
  predicate Sorted(e: seq<Entry>) {
    forall i, j | 0 <= i < j < |e| :: LexLess(e[i].0, e[j].0)
  }

  /** The map the entries stand for. */
  function ToMap(e: seq<Entry>): map<string, string> {
    if e == [] then map[] else ToMap(e[1..])[e[0].0 := e[0].1]
  }

  function KeysOf(e: seq<Entry>): set<string> {
    set i | 0 <= i < |e| :: e[i].0
  }

  lemma {:induction false} ToMapKeys(e: seq<Entry>)
    ensures ToMap(e).Keys == KeysOf(e)
  {
    if e != [] {
      ToMapKeys(e[1..]);
      KeysOfCons(e[0], e[1..]);
      assert [e[0]] + e[1..] == e;
    }
  }

  lemma KeysOfCons(x: Entry, e: seq<Entry>)
    ensures KeysOf([x] + e) == KeysOf(e) + {x.0}
  {
    var r := [x] + e;
    forall k | k in KeysOf(r)
      ensures k in KeysOf(e) + {x.0}
    {
      var i :| 0 <= i < |r| && r[i].0 == k;
      if i > 0 {
        assert e[i - 1].0 == k;
      }
    }
    forall k | k in KeysOf(e) + {x.0}
      ensures k in KeysOf(r)
    {
      if k != x.0 {
        var i :| 0 <= i < |e| && e[i].0 == k;
        assert r[i + 1].0 == k;
      } else {
        assert r[0].0 == k;
      }
    }
  }

  /** In sorted entries, the map sends each key to its own entry's value. */
  lemma {:induction false} ToMapAt(e: seq<Entry>, i: nat)
    requires Sorted(e) && i < |e|
    ensures e[i].0 in ToMap(e) && ToMap(e)[e[i].0] == e[i].1
  {
    if i > 0 {
      ToMapAt(e[1..], i - 1);
      LexLessIrreflexive(e[i].0);
    }
  }

  /** Every value of a well-formed list is one the format can carry, so an
      empty value never stands for a present key. */
  lemma {:induction false} StoredValueGood(e: seq<Entry>, k: string)
    requires WellFormed(e) && k in ToMap(e)
    ensures GoodValue(ToMap(e)[k])
    decreases |e|
  {
    if e[0].0 != k {
      assert forall i | 0 <= i < |e[1..]| :: e[1..][i] == e[i + 1];
      StoredValueGood(e[1..], k);
    }
  }

  /** `std::map::insert`: adds the pair in key order, and only when the key
      is absent (InsertSorted, InsertMap). */
  function Insert(e: seq<Entry>, k: string, v: string): seq<Entry>
    decreases |e|
  {
    if e == [] then [(k, v)]
    else if e[0].0 == k then e
    else if LexLess(k, e[0].0) then [(k, v)] + e
    else [e[0]] + Insert(e[1..], k, v)
  }

  lemma {:induction false} InsertSorted(e: seq<Entry>, k: string, v: string)
    requires Sorted(e)
    ensures Sorted(Insert(e, k, v)) && KeysOf(Insert(e, k, v)) == KeysOf(e) + {k}
    decreases |e|
  {
    if e == [] {
      KeysOfCons((k, v), []);
    } else if e[0].0 == k {
      KeysOfCons(e[0], e[1..]);
      assert [e[0]] + e[1..] == e;
    } else if LexLess(k, e[0].0) {
      FreshKey(e, k);
      SortedCons((k, v), e);
      KeysOfCons((k, v), e);
    } else {
      InsertSorted(e[1..], k, v);
      InsertBehind(e, k, v, Insert(e[1..], k, v));
    }
  }

  /** The recursive case of Insert: the key goes behind the first entry. */
  lemma InsertBehind(e: seq<Entry>, k: string, v: string, rest: seq<Entry>)
    requires Sorted(e) && |e| > 0 && e[0].0 != k && !LexLess(k, e[0].0)
    requires Sorted(rest) && KeysOf(rest) == KeysOf(e[1..]) + {k}
    ensures Sorted([e[0]] + rest) && KeysOf([e[0]] + rest) == KeysOf(e) + {k}
  {
    LexLessTotal(k, e[0].0);
    assert forall x | x in KeysOf(e[1..]) :: LexLess(e[0].0, x);
    SortedCons(e[0], rest);
    KeysOfCons(e[0], rest);
    KeysOfCons(e[0], e[1..]);
    assert [e[0]] + e[1..] == e;
  }

  lemma {:induction false} InsertMap(e: seq<Entry>, k: string, v: string)
    requires Sorted(e)
    ensures ToMap(Insert(e, k, v)) == if k in ToMap(e) then ToMap(e) else ToMap(e)[k := v]
    decreases |e|
  {
    if e == [] {
    } else if e[0].0 == k {
      ToMapAt(e, 0);
    } else if LexLess(k, e[0].0) {
      FreshKey(e, k);
      ToMapKeys(e);
      LexLessIrreflexive(k);
      assert ([(k, v)] + e)[1..] == e;
    } else {
      InsertMap(e[1..], k, v);
      var rest := Insert(e[1..], k, v);
      assert ([e[0]] + rest)[1..] == rest;
      UpdateCommutes(ToMap(e[1..]), e[0].0, e[0].1, k, v);
    }
  }

  lemma UpdateCommutes(m: map<string, string>, a: string, b: string, k: string, v: string)
    requires a != k
    ensures m[k := v][a := b] == m[a := b][k := v]
  {
  }

  /** A key below the first key of sorted entries is none of their keys,
      and below all of them. */
  lemma FreshKey(e: seq<Entry>, k: string)
    requires Sorted(e) && |e| > 0 && LexLess(k, e[0].0)
    ensures forall x | x in KeysOf(e) :: LexLess(k, x)
  {
    forall i | 0 <= i < |e|
      ensures LexLess(k, e[i].0)
    {
      if i > 0 {
        LexLessTransitive(k, e[0].0, e[i].0);
      }
    }
  }

  /** Prefixing an entry whose key is below every key keeps entries sorted. */
  lemma SortedCons(x: Entry, e: seq<Entry>)
    requires Sorted(e)
    requires forall y | y in KeysOf(e) :: LexLess(x.0, y)
    ensures Sorted([x] + e)
  {
    forall i, j | 0 <= i < j < |[x] + e|
      ensures LexLess(([x] + e)[i].0, ([x] + e)[j].0)
    {
      if i == 0 {
        assert e[j - 1].0 in KeysOf(e);
      }
    }
  }

  /** Index of the first `c` in `s`, or `|s|` when there is none. */
  function FirstIndex(s: string, c: char): (i: nat)
    ensures i <= |s| && c !in s[..i] && (i < |s| ==> s[i] == c)
  {
    if s == [] then 0
    else if s[0] == c then 0
    else assert s[1..][..FirstIndex(s[1..], c)] == s[..FirstIndex(s[1..], c) + 1][1..];
         1 + FirstIndex(s[1..], c)
  }

  /** `std::getline` run to the end of the text: pieces between newlines,
      with no empty piece after a final newline. */
  function Lines(s: string): (lines: seq<string>)
    ensures forall i | 0 <= i < |lines| :: '\n' !in lines[i]
    decreases |s|
  {
    if s == [] then []
    else
      var i := FirstIndex(s, '\n');
      if i == |s| then [s] else [s[..i]] + Lines(s[i + 1..])
  }

  /** A line's key is the text before its first `:`, its value everything
      after that `:`, later colons included; a line without `:` is all key. */
  function SplitLine(line: string): (kv: (string, string))
    ensures ':' !in kv.0
    ensures ':' in line ==> line == kv.0 + [':'] + kv.1
    ensures ':' !in line ==> kv == (line, "")
  {
    var i := FirstIndex(line, ':');
    if i == |line| then
      assert line[..i] == line;
      (line, "")
    else
      assert line == line[..i] + [':'] + line[i + 1..];
      (line[..i], line[i + 1..])
  }

  /** One line read into the list: kept when both key and value are
      non-empty, and then only if the key is new. */
  function ParseStep(e: seq<Entry>, line: string): seq<Entry> {
    var kv := SplitLine(line);
    if kv.0 == "" || kv.1 == "" then e else Insert(e, kv.0, kv.1)
  }

  function ParseLines(e: seq<Entry>, lines: seq<string>): seq<Entry>
    decreases |lines|
  {
    if lines == [] then e else ParseLines(ParseStep(e, lines[0]), lines[1..])
  }

  /** What `parse_all_attributes` builds from the file; a missing file gives
      an empty list. */
  function Parse(file: Option<string>): seq<Entry> {
    if file.None? then [] else ParseLines([], Lines(file.value))
  }

  /** What `save` writes: one `key:value` line per entry, in key order. */
  function Serialize(e: seq<Entry>): string {
    if e == [] then "" else e[0].0 + [':'] + e[0].1 + ['\n'] + Serialize(e[1..])
  }

  /** A key `save` and `parse_all_attributes` carry unchanged. */
  predicate GoodKey(k: string) {
    k != "" && ':' !in k && '\n' !in k
  }

  /** A value `save` and `parse_all_attributes` carry unchanged. */
  predicate GoodValue(v: string) {
    v != "" && '\n' !in v
  }

  predicate WellFormed(e: seq<Entry>) {
    forall i | 0 <= i < |e| :: GoodKey(e[i].0) && GoodValue(e[i].1)
  }

  /** The reference reading of a file: a key's value is the value on the
      first line that has that key and a non-empty value. */
  function FirstValue(lines: seq<string>, k: string): Option<string>
    decreases |lines|
  {
    if lines == [] then None
    else
      var kv := SplitLine(lines[0]);
      if kv.0 == k && kv.0 != "" && kv.1 != "" then Some(kv.1) else FirstValue(lines[1..], k)
  }

  function Lookup(m: map<string, string>, k: string): Option<string> {
    if k in m then Some(m[k]) else None
  }

  /** Reading lines keeps the list sorted and well formed. */
  lemma {:induction false} ParseLinesValid(e: seq<Entry>, lines: seq<string>)
    requires Sorted(e) && WellFormed(e)
    requires forall i | 0 <= i < |lines| :: '\n' !in lines[i]
    ensures Sorted(ParseLines(e, lines)) && WellFormed(ParseLines(e, lines))
    decreases |lines|
  {
    if lines != [] {
      var kv := SplitLine(lines[0]);
      if kv.0 != "" && kv.1 != "" {
        InsertSorted(e, kv.0, kv.1);
        InsertWellFormed(e, kv.0, kv.1);
      }
      ParseLinesValid(ParseStep(e, lines[0]), lines[1..]);
    }
  }

  lemma {:induction false} InsertWellFormed(e: seq<Entry>, k: string, v: string)
    requires WellFormed(e) && GoodKey(k) && GoodValue(v)
    ensures WellFormed(Insert(e, k, v))
    decreases |e|
  {
    if e != [] && e[0].0 != k && !LexLess(k, e[0].0) {
      InsertWellFormed(e[1..], k, v);
    }
  }

  /** First occurrence wins: after reading `lines` into `e`, a key keeps
      the value it had in `e`, and otherwise takes its first value in the
      lines. */
  lemma {:induction false} ParseLinesFirstWins(e: seq<Entry>, lines: seq<string>, k: string)
    requires Sorted(e)
    ensures Lookup(ToMap(ParseLines(e, lines)), k)
            == if k in ToMap(e) then Some(ToMap(e)[k]) else FirstValue(lines, k)
    decreases |lines|
  {
    if lines != [] {
      var kv := SplitLine(lines[0]);
      if kv.0 != "" && kv.1 != "" {
        InsertSorted(e, kv.0, kv.1);
        InsertMap(e, kv.0, kv.1);
      }
      ParseLinesFirstWins(ParseStep(e, lines[0]), lines[1..], k);
    }
  }

  /** `parse_all_attributes` as a whole: the list is sorted and well formed,
      empty for a missing file, and a key's value is its first value in the
      file. */
  lemma ParseFirstWins(file: Option<string>, k: string)
    ensures Sorted(Parse(file)) && WellFormed(Parse(file))
    ensures file.None? ==> Parse(file) == []
    ensures file.Some? ==> Lookup(ToMap(Parse(file)), k) == FirstValue(Lines(file.value), k)
  {
    if file.Some? {
      ParseLinesValid([], Lines(file.value));
      ParseLinesFirstWins([], Lines(file.value), k);
    }
  }

  /** The lines `save` writes. */
  function LineTexts(e: seq<Entry>): (ls: seq<string>)
    ensures |ls| == |e|
  {
    if e == [] then [] else [e[0].0 + [':'] + e[0].1] + LineTexts(e[1..])
  }

  lemma {:induction false} SerializeLines(e: seq<Entry>)
    requires WellFormed(e)
    ensures Lines(Serialize(e)) == LineTexts(e)
  {
    if e != [] {
      var line := e[0].0 + [':'] + e[0].1;
      var rest := Serialize(e[1..]);
      var text := line + ['\n'] + rest;
      assert text == Serialize(e);
      assert '\n' !in line;
      FirstIndexAt(text, '\n', |line|);
      assert text[..|line|] == line && text[|line| + 1..] == rest;
      SerializeLines(e[1..]);
    }
  }

  /** The text of the entries from `i` on is entry `i`'s line followed by
      the text of the rest. */
  lemma SerializeAt(e: seq<Entry>, i: nat)
    requires i < |e|
    ensures Serialize(e[i..]) == e[i].0 + [':'] + e[i].1 + ['\n'] + Serialize(e[i + 1..])
  {
    assert e[i..][1..] == e[i + 1..];
  }

  /** The first `c` sits at `i` when `s[..i]` has none and `s[i]` is one. */
  lemma {:induction false} FirstIndexAt(s: string, c: char, i: nat)
    requires i < |s| && s[i] == c && c !in s[..i]
    ensures FirstIndex(s, c) == i
  {
  }

  lemma SplitSavedLine(k: string, v: string)
    requires GoodKey(k)
    ensures SplitLine(k + [':'] + v) == (k, v)
  {
    var line := k + [':'] + v;
    FirstIndexAt(line, ':', |k|);
    assert line[..|k|] == k && line[|k| + 1..] == v;
  }

  /** Reading the saved lines of well-formed entries whose keys all come
      after those of `p` appends them to `p`. */
  lemma {:induction false} ParseSavedLines(p: seq<Entry>, e: seq<Entry>)
    requires Sorted(p + e) && WellFormed(e)
    ensures ParseLines(p, LineTexts(e)) == p + e
    decreases |e|
  {
    if e != [] {
      SplitSavedLine(e[0].0, e[0].1);
      InsertAtEnd(p, e[0].0, e[0].1, e);
      assert (p + [e[0]]) + e[1..] == p + e;
      ParseSavedLines(p + [e[0]], e[1..]);
    }
  }

  /** Inserting a key above every key present appends it. */
  lemma {:induction false} InsertAtEnd(p: seq<Entry>, k: string, v: string, e: seq<Entry>)
    requires Sorted(p + e) && |e| > 0 && e[0] == (k, v)
    ensures Insert(p, k, v) == p + [(k, v)]
    decreases |p|
  {
    if p != [] {
      assert LexLess((p + e)[0].0, (p + e)[|p|].0);
      LexLessIrreflexive(k);
      if LexLess(k, p[0].0) {
        LexLessTransitive(k, p[0].0, k);
      }
      assert p[1..] + e == (p + e)[1..];
      InsertAtEnd(p[1..], k, v, e);
      assert [p[0]] + (p[1..] + [(k, v)]) == p + [(k, v)];
    }
  }

  /** Save then parse gives back the list, for keys and values that the
      format can carry. */
  lemma RoundTrip(e: seq<Entry>)
    requires Sorted(e) && WellFormed(e)
    ensures Parse(Some(Serialize(e))) == e
  {
    SerializeLines(e);
    assert [] + e == e;
    ParseSavedLines([], e);
  }

  /** Index of the entry with key `k`, or `|e|` when there is none. */
  function KeyIndex(e: seq<Entry>, k: string): (i: nat)
    ensures i <= |e| && (i < |e| ==> e[i].0 == k) && forall j | 0 <= j < i :: e[j].0 != k
  {
    if e == [] then 0
    else if e[0].0 == k then 0
    else 1 + KeyIndex(e[1..], k)
  }

  /** The list `change_attribute` saves: the key's value replaced in place,
      or the pair inserted when the key is absent. */
  function Assign(e: seq<Entry>, k: string, v: string): seq<Entry> {
    var i := KeyIndex(e, k);
    if i < |e| then e[i := (k, v)] else Insert(e, k, v)
  }

  /** The list after `add_attribute`: insert, save, read back. */
  function AfterAdd(e: seq<Entry>, k: string, v: string): seq<Entry>
    requires Sorted(e)
  {
    Parse(Some(Serialize(Insert(e, k, v))))
  }

  /** The list after `change_attribute`: assign, save, read back. */
  function AfterChange(e: seq<Entry>, k: string, v: string): seq<Entry> {
    Parse(Some(Serialize(Assign(e, k, v))))
  }

  /** `add_attribute` never overwrites: with the key present the list comes
      back unchanged, and a new key the format can carry is added with its
      value. */
  lemma AddNeverOverwrites(e: seq<Entry>, k: string, v: string)
    requires Sorted(e) && WellFormed(e)
    ensures k in ToMap(e) ==> AfterAdd(e, k, v) == e
    ensures k !in ToMap(e) && GoodKey(k) && GoodValue(v) ==> ToMap(AfterAdd(e, k, v)) == ToMap(e)[k := v]
  {
    InsertSorted(e, k, v);
    InsertMap(e, k, v);
    ToMapKeys(e);
    if k in ToMap(e) {
      assert Insert(e, k, v) == e by { InsertPresent(e, k, v); }
      RoundTrip(e);
    } else if GoodKey(k) && GoodValue(v) {
      InsertWellFormed(e, k, v);
      RoundTrip(Insert(e, k, v));
    }
  }

  lemma {:induction false} InsertPresent(e: seq<Entry>, k: string, v: string)
    requires Sorted(e) && k in KeysOf(e)
    ensures Insert(e, k, v) == e
    decreases |e|
  {
    var i :| 0 <= i < |e| && e[i].0 == k;
    if e[0].0 != k {
      assert i > 0;
      if LexLess(k, e[0].0) {
        LexLessTransitive(k, e[0].0, k);
        LexLessIrreflexive(k);
      }
      assert e[1..][i - 1].0 == k;
      InsertPresent(e[1..], k, v);
    }
  }

  /** `change_attribute` with a key and value the format can carry: the key
      maps to the new value and every other key keeps its value. */
  lemma ChangeSetsValue(e: seq<Entry>, k: string, v: string)
    requires Sorted(e) && WellFormed(e) && GoodKey(k) && GoodValue(v)
    ensures ToMap(AfterChange(e, k, v)) == ToMap(e)[k := v]
  {
    var i := KeyIndex(e, k);
    if i < |e| {
      ReplaceValue(e, i, v);
      RoundTrip(e[i := (k, v)]);
    } else {
      InsertSorted(e, k, v);
      InsertMap(e, k, v);
      InsertWellFormed(e, k, v);
      ToMapKeys(e);
      RoundTrip(Insert(e, k, v));
    }
  }

  /** Replacing one value keeps the keys, the order and well-formedness,
      and updates the map at that key. */
  lemma {:induction false} ReplaceValue(e: seq<Entry>, i: nat, v: string)
    requires Sorted(e) && i < |e|
    ensures Sorted(e[i := (e[i].0, v)])
    ensures WellFormed(e) && GoodValue(v) ==> WellFormed(e[i := (e[i].0, v)])
    ensures ToMap(e[i := (e[i].0, v)]) == ToMap(e)[e[i].0 := v]
    decreases |e|
  {
    var r := e[i := (e[i].0, v)];
    if i == 0 {
      assert r[1..] == e[1..];
    } else {
      ReplaceValue(e[1..], i - 1, v);
      assert r[1..] == e[1..][i - 1 := (e[i].0, v)];
      LexLessIrreflexive(e[i].0);
      UpdateCommutes(ToMap(e[1..]), e[0].0, e[0].1, e[i].0, v);
    }
  }

  /** The value of the first entry with key `k`. */
  function FindValue(e: seq<Entry>, k: string): (r: Option<string>)
    ensures r == Lookup(ToMap(e), k)
  {
    if e == [] then None
    else if e[0].0 == k then Some(e[0].1)
    else FindValue(e[1..], k)
  }

  /** `std::map::iterator` walk of `change_attribute`: the index of the
      matching entry, or `|e|`. */
  method FindKey(e: seq<Entry>, k: string) returns (i: nat)
    ensures i == KeyIndex(e, k)
  {
    i := 0;
    while i < |e|
      invariant i <= |e| && forall j | 0 <= j < i :: e[j].0 != k
    {
      if e[i].0 == k {
        KeyIndexAt(e, k, i);
        return;
      }
      i := i + 1;
    }
    KeyIndexAt(e, k, i);
  }

  lemma {:induction false} KeyIndexAt(e: seq<Entry>, k: string, i: nat)
    requires i <= |e| && (i < |e| ==> e[i].0 == k) && forall j | 0 <= j < i :: e[j].0 != k
    ensures KeyIndex(e, k) == i
    decreases |e|
  {
    if e != [] && i > 0 {
      KeyIndexAt(e[1..], k, i - 1);
    }
  }

  /** The character loop of `parse_all_attributes`: characters go to the
      key until the first `:`, which is dropped, and to the value after it. */
  method ParseLine(line: string) returns (key: string, value: string)
    ensures (key, value) == SplitLine(line)
  {
    var parsingValue := false;
    key, value := "", "";
    var colon := FirstIndex(line, ':');
    var i := 0;
    while i < |line|
      invariant 0 <= i <= |line|
      invariant parsingValue <==> colon < i
      invariant !parsingValue ==> key == line[..i] && value == ""
      invariant parsingValue ==> key == line[..colon] && value == line[colon + 1..i]
    {
      if !parsingValue {
        if line[i] == ':' {
          parsingValue := true;
        } else {
          key := key + [line[i]];
        }
      } else {
        value := value + [line[i]];
      }
      i := i + 1;
    }
    assert line[..|line|] == line;
  }

  class AttributeParser {
    const path: string
    /** The text of the file at `path`; `None` while it does not exist. */
    var file: Option<string>
    var attributeList: seq<Entry>

    ghost predicate Valid()
      reads this
    {
      Sorted(attributeList) && WellFormed(attributeList)
    }

    constructor (path: string, file: Option<string>)
      ensures this.path == path && this.file == file
      ensures attributeList == Parse(file) && Valid()
    {
      this.path := path;
      this.file := file;
      attributeList := [];
      new;
      ParseAllAttributes();
    }

    /** Clears the list and reads the file line by line. */
    method ParseAllAttributes()
      modifies this`attributeList
      ensures attributeList == Parse(file) && Valid()
    {
      ParseFirstWins(file, "");
      attributeList := [];
      if file.None? {
        return;
      }
      var lines := Lines(file.value);
      var n := 0;
      while n < |lines|
        invariant 0 <= n <= |lines|
        invariant ParseLines(attributeList, lines[n..]) == Parse(file)
      {
        assert lines[n..][1..] == lines[n + 1..];
        var key, value := ParseLine(lines[n]);
        if key != "" && value != "" {
          attributeList := Insert(attributeList, key, value);
        }
        n := n + 1;
      }
    }

    /** Creates an empty file when there is none. */
    method MakeFile()
      modifies this`file
      ensures file == if old(file).None? then Some("") else old(file)
    {
      if file.Some? {
        return;
      }
      file := Some("");
    }

    /** Writes every entry as a `key:value` line, in key order. */
    method Save()
      modifies this`file
      ensures file == Some(Serialize(attributeList))
    {
      MakeFile();
      var entries := attributeList;
      var text := "";
      var i := 0;
      while i < |entries|
        invariant 0 <= i <= |entries|
        invariant text + Serialize(entries[i..]) == Serialize(entries)
      {
        var line := entries[i].0 + [':'] + entries[i].1 + ['\n'];
        SerializeAt(entries, i);
        assert text + Serialize(entries[i..]) == (text + line) + Serialize(entries[i + 1..]);
        text := text + line;
        i := i + 1;
      }
      assert Serialize(entries[i..]) == [];
      assert text + Serialize(entries[i..]) == text;
      file := Some(text);
    }

    method AddAttribute(name: string, value: string)
      requires Valid()
      modifies this`file, this`attributeList
      ensures file == Some(Serialize(Insert(old(attributeList), name, value)))
      ensures attributeList == AfterAdd(old(attributeList), name, value) && Valid()
    {
      attributeList := Insert(attributeList, name, value);
      Save();
      ParseAllAttributes();
    }

    method ChangeAttribute(name: string, newValue: string)
      requires Valid()
      modifies this`file, this`attributeList
      ensures file == Some(Serialize(Assign(old(attributeList), name, newValue)))
      ensures attributeList == AfterChange(old(attributeList), name, newValue) && Valid()
    {
      var i := FindKey(attributeList, name);
      if i < |attributeList| {
        attributeList := attributeList[i := (name, newValue)];
        Save();
        ParseAllAttributes();
        return;
      }
      attributeList := Insert(attributeList, name, newValue);
      Save();
      ParseAllAttributes();
    }

    /** The stored value, or the empty string for an absent key. */
    function GetAttribute(name: string): (r: string)
      reads this
      ensures name in ToMap(attributeList) ==> r == ToMap(attributeList)[name]
      ensures name !in ToMap(attributeList) ==> r == ""
    {
      match FindValue(attributeList, name)
      case None => ""
      case Some(v) => v
    }
  }
}
