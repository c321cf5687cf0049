/**
 * `buildFrequencyTable` and `getCharacterFrequency` of
 * `frontend/src/utils/huffman.js`: symbol counts in a `Map` whose keys are
 * listed in order of first occurrence.
 */
module FrequencyTables {
  import opened Sequences
  import opened Wrappers
  import opened OrderedMaps

  type FreqTable = OrdMap<char, nat>

  /** The distinct symbols of `s`, in order of first occurrence. */
  function Distinct(s: seq<char>): (d: seq<char>)
    ensures NoDup(d)
    ensures forall c :: c in d <==> c in s
    decreases |s|
  {
    if s == [] then []
    else
      var p := s[..|s| - 1];
      assert s == p + [s[|s| - 1]];
      if s[|s| - 1] in p then Distinct(p) else Distinct(p) + [s[|s| - 1]]
  }

  /**
   * `table` is what `buildFrequencyTable(text)` returns: one key per distinct
   * symbol, in order of first occurrence, mapped to its number of occurrences.
   */
  ghost predicate IsFrequencyTableOf(table: FreqTable, text: seq<char>) {
    && table.Valid()
    && table.keys == Distinct(text)
    && forall c :: c in table.values ==> table.values[c] == multiset(text)[c]
  }

  /** The table of `text` built at once: its distinct symbols, each mapped to its number of occurrences. */
  ghost function TableOf(text: seq<char>): (table: FreqTable)
    ensures IsFrequencyTableOf(table, text)
  {
    OrdMap(Distinct(text), map c | c in Distinct(text) :: multiset(text)[c])
  }

  /** A text has one frequency table: its key order and its counts are both fixed by the text. */
  lemma FrequencyTableIsUnique(a: FreqTable, b: FreqTable, text: seq<char>)
    requires IsFrequencyTableOf(a, text) && IsFrequencyTableOf(b, text)
    ensures a == b
  {
    assert a.values == b.values;
  }

  /** `freqTable.get(char) || 0`: the count of `c`, or 0 when it is absent. */
  function GetCharacterFrequency(freqTable: FreqTable, c: char): (n: nat)
    ensures c in freqTable.values ==> n == freqTable.values[c]
    ensures c !in freqTable.values ==> n == 0
  {
    match freqTable.Get(c)
    case Some(k) => k
    case None => 0
  }

  /** The frequency of a symbol is its number of occurrences, 0 for an absent one. */
  lemma CharacterFrequencyIsCount(table: FreqTable, text: seq<char>, c: char)
    requires IsFrequencyTableOf(table, text)
    ensures GetCharacterFrequency(table, c) == multiset(text)[c]
  {
  }

  /** `buildFrequencyTable(text)`: one `set` per symbol, counting up from `get(char) || 0`. */
  method BuildFrequencyTable(text: seq<char>) returns (freqTable: FreqTable)
    ensures IsFrequencyTableOf(freqTable, text)
    ensures forall c :: c in freqTable.values ==> freqTable.values[c] > 0
  {
    freqTable := EmptyMap();
    for i := 0 to |text|
      invariant IsFrequencyTableOf(freqTable, text[..i])
    {
      var c := text[i];
      assert text[..i + 1] == text[..i] + [c];
      assert text[..i + 1][..i] == text[..i];
      freqTable := freqTable.Set(c, GetCharacterFrequency(freqTable, c) + 1);
    }
    assert text[..|text|] == text;
  }

  /** The sum, over `keys`, of the counts in `m`. */
  function SumOfCounts(keys: seq<char>, m: multiset<char>): nat {
    if keys == [] then 0 else m[keys[0]] + SumOfCounts(keys[1..], m)
  }

  /** A key added last adds its count. */
  lemma {:induction false} SumOfCountsSnoc(keys: seq<char>, m: multiset<char>, x: char)
    ensures SumOfCounts(keys + [x], m) == SumOfCounts(keys, m) + m[x]
    decreases |keys|
  {
    if keys == [] {
      assert keys + [x] == [x];
    } else {
      assert (keys + [x])[1..] == keys[1..] + [x];
      SumOfCountsSnoc(keys[1..], m, x);
    }
  }

  /** One more occurrence of `x` adds one to the sum exactly when `x` is a key. */
  lemma {:induction false} SumOfCountsBump(keys: seq<char>, m: multiset<char>, x: char)
    requires NoDup(keys)
    ensures SumOfCounts(keys, m + multiset{x}) == SumOfCounts(keys, m) + if x in keys then 1 else 0
    decreases |keys|
  {
    if keys != [] {
      SumOfCountsBump(keys[1..], m, x);
      if keys[0] == x {
        assert x !in keys[1..];
      }
    }
  }

  /** The counts of the distinct symbols of a text add up to its length. */
  lemma {:induction false} CountsAddUpToLength(text: seq<char>)
    ensures SumOfCounts(Distinct(text), multiset(text)) == |text|
    decreases |text|
  {
    if text != [] {
      var p, x := text[..|text| - 1], text[|text| - 1];
      assert text == p + [x];
      CountsAddUpToLength(p);
      SumOfCountsBump(Distinct(p), multiset(p), x);
      if x !in p {
        SumOfCountsSnoc(Distinct(p), multiset(text), x);
      }
    }
  }

  /** The sum of the frequencies listed in `pairs`. */
  function SumOfFrequencies(pairs: seq<KeyValue<char, nat>>): nat {
    if pairs == [] then 0 else pairs[0].value + SumOfFrequencies(pairs[1..])
  }

  /** The total weight of a table: the sum of its frequencies, in map order. */
  function Total(table: FreqTable): nat
    requires table.Valid()
  {
    SumOfFrequencies(GetKeyValuePairs(table))
  }

  /** The frequencies of the entries add up like the counts of their keys. */
  lemma {:induction false} SumOfFrequenciesIsSumOfCounts(pairs: seq<KeyValue<char, nat>>, keys: seq<char>, m: multiset<char>)
    requires |pairs| == |keys|
    requires forall i :: 0 <= i < |pairs| ==> pairs[i].key == keys[i] && pairs[i].value == m[keys[i]]
    ensures SumOfFrequencies(pairs) == SumOfCounts(keys, m)
    decreases |keys|
  {
    if keys != [] {
      SumOfFrequenciesIsSumOfCounts(pairs[1..], keys[1..], m);
    }
  }

  /** The frequencies of a text's table add up to the length of the text. */
  lemma FrequenciesAddUpToLength(table: FreqTable, text: seq<char>)
    requires IsFrequencyTableOf(table, text)
    ensures Total(table) == |text|
  {
    var pairs := GetKeyValuePairs(table);
    forall i | 0 <= i < |pairs|
      ensures pairs[i].value == multiset(text)[table.keys[i]]
    {
      assert table.keys[i] in table.values;
    }
    SumOfFrequenciesIsSumOfCounts(pairs, table.keys, multiset(text));
    CountsAddUpToLength(text);
  }
}
