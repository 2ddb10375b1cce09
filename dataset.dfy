/**
 * The data preparation of the retraining script: `load_dataset` turns the
 * items of the JSON dataset into parallel lists of anonymized texts and 0/1
 * labels, and `augment_dataset` appends two rewordings of every productive
 * example.
 */
module Dataset {
  import opened Wrappers
  import opened PyText
  import opened Anonymizer

  /** A JSON value found under a key: a string, or anything else (null, a number, a list, ...). */
  datatype Value = Str(s: string) | NonString

  /** One item of the dataset list: the values under "text" and "label" (here `category`), each possibly absent. */
  datatype Item = Item(text: Option<Value>, category: Option<Value>)

  /** `item.get(key, "")` for an absent or string value. */
  function StringOr(v: Option<Value>): string {
    if v.Some? && v.value.Str? then v.value.s else ""
  }

  /** `.strip()` on a value that is not a string raises, and the whole load then returns two empty lists. */
  predicate Raises(item: Item) {
    item.text == Some(NonString) || item.category == Some(NonString)
  }

  /** The trimmed text of an item. */
  function TextOf(item: Item): (r: string)
    ensures r != [] ==> !IsSpace(r[0]) && !IsSpace(r[|r| - 1])
  {
    Strip(StringOr(item.text))
  }

  /** The trimmed, lower-cased label of an item. */
  function LabelOf(item: Item): (r: string)
    ensures forall i :: 0 <= i < |r| ==> !IsAsciiUpper(r[i])
  {
    Lower(Strip(StringOr(item.category)))
  }

  /** An item is kept when neither value raises and both the trimmed text and the trimmed label are non-empty. */
  predicate Kept(item: Item) {
    !Raises(item) && TextOf(item) != [] && LabelOf(item) != []
  }

  /** The binary label: 1 for a label that starts with "prod", 0 for any other. */
  function Binary(name: string): (r: int)
    ensures r == 0 || r == 1
    ensures r == 1 <==> |name| >= 4 && name[0] == 'p' && name[1] == 'r' && name[2] == 'o' && name[3] == 'd'
  {
    if StartsWith(name, "prod") then 1 else 0
  }

  /** What an item adds to the texts: its anonymized text when it is kept, nothing otherwise. */
  function TextEntry(item: Item): seq<string> {
    if Kept(item) then [Anonymize(TextOf(item))] else []
  }

  /** What an item adds to the labels: its binary label when it is kept, nothing otherwise. */
  function LabelEntry(item: Item): seq<int> {
    if Kept(item) then [Binary(LabelOf(item))] else []
  }

  /** The anonymized texts of the kept items, in order. */
  function KeptTexts(items: seq<Item>): seq<string> {
    ConcatMap(items, TextEntry)
  }

  /** The binary labels of the kept items, in order. */
  function KeptLabels(items: seq<Item>): seq<int> {
    ConcatMap(items, LabelEntry)
  }

  /** The texts and labels of the kept items line up, one pair per kept item at most. */
  lemma {:induction false} KeptLengths(items: seq<Item>)
    ensures |KeptTexts(items)| == |KeptLabels(items)| <= |items|
    decreases |items|
  {
    if items != [] {
      KeptLengths(items[1..]);
    }
  }

  predicate IsBit(v: int) {
    v == 0 || v == 1
  }

  /** Every label of a kept item is 0 or 1. */
  lemma KeptLabelsAreBinary(items: seq<Item>)
    ensures forall j :: 0 <= j < |KeptLabels(items)| ==> KeptLabels(items)[j] == 0 || KeptLabels(items)[j] == 1
  {
    forall x, j | x in items && 0 <= j < |LabelEntry(x)| ensures IsBit(LabelEntry(x)[j]) {
    }
    ConcatMapAll(items, LabelEntry, IsBit);
  }

  /** Loading one more item extends both lists by that item's contribution, and the prefix raises only if it did or the item does. */
  lemma KeptStep(items: seq<Item>, i: nat)
    requires i < |items|
    ensures KeptTexts(items[..i + 1]) == KeptTexts(items[..i]) + TextEntry(items[i])
    ensures KeptLabels(items[..i + 1]) == KeptLabels(items[..i]) + LabelEntry(items[i])
    ensures AnyRaises(items[..i + 1]) <==> AnyRaises(items[..i]) || Raises(items[i])
  {
    assert items[..i + 1] == items[..i] + [items[i]];
    ConcatMapSnoc(items[..i], items[i], TextEntry);
    ConcatMapSnoc(items[..i], items[i], LabelEntry);
    assert items[..i + 1][..i] == items[..i];
  }

  /** Some item of the list has a value that is not a string. */
  predicate AnyRaises(items: seq<Item>)
    decreases |items|
  {
    items != [] && (AnyRaises(items[..|items| - 1]) || Raises(items[|items| - 1]))
  }

  /** `AnyRaises` agrees with the direct definition. */
  lemma {:induction false} AnyRaisesIff(items: seq<Item>)
    ensures AnyRaises(items) <==> exists i :: 0 <= i < |items| && Raises(items[i])
    decreases |items|
  {
    if items != [] {
      var n := |items| - 1;
      AnyRaisesIff(items[..n]);
      if exists i :: 0 <= i < |items| && Raises(items[i]) {
        var i :| 0 <= i < |items| && Raises(items[i]);
        if i < n {
          assert items[..n][i] == items[i];
        }
      }
      if AnyRaises(items[..n]) {
        var i :| 0 <= i < n && Raises(items[..n][i]);
        assert items[i] == items[..n][i];
      }
    }
  }

  /**
   * The loop of `load_dataset` over the parsed items: two empty lists as soon
   * as a value is not a string, otherwise the texts and labels of the kept
   * items, in order.
   */
  method LoadItems(items: seq<Item>) returns (texts: seq<string>, labels: seq<int>)
    ensures AnyRaises(items) ==> texts == [] && labels == []
    ensures !AnyRaises(items) ==> texts == KeptTexts(items) && labels == KeptLabels(items)
  {
    texts, labels := [], [];
    for i := 0 to |items|
      invariant !AnyRaises(items[..i])
      invariant texts == KeptTexts(items[..i]) && labels == KeptLabels(items[..i])
    {
      var item := items[i];
      if Raises(item) {
        AnyRaisesExtends(items, i);
        return [], [];
      }
      var text, name := TextOf(item), LabelOf(item);
      if text != [] && name != [] {
        texts := texts + [Anonymize(text)];
        labels := labels + [Binary(name)];
      }
      KeptStep(items, i);
    }
    assert items[..|items|] == items;
  }

  /**
   * `load_dataset`, with the parsed file given as a value: `None` when the
   * file does not exist or cannot be read as JSON. A missing file and a
   * non-string value both give two empty lists; otherwise the kept items
   * give their anonymized texts and binary labels, in order, the two lists
   * of the same length and every label 0 or 1.
   */
  method LoadDataset(data: Option<seq<Item>>) returns (texts: seq<string>, labels: seq<int>)
    ensures data.None? ==> texts == [] && labels == []
    ensures data.Some? && AnyRaises(data.value) ==> texts == [] && labels == []
    ensures data.Some? && !AnyRaises(data.value) ==> texts == KeptTexts(data.value) && labels == KeptLabels(data.value)
    ensures |texts| == |labels|
    ensures forall j :: 0 <= j < |labels| ==> labels[j] == 0 || labels[j] == 1
  {
    if data.None? {
      return [], [];
    }
    texts, labels := LoadItems(data.value);
    KeptLengths(data.value);
    KeptLabelsAreBinary(data.value);
  }

  /** A raising item makes every list that holds it raise; the prefix up to a non-raising item raises only if the shorter one does. */
  lemma AnyRaisesExtends(items: seq<Item>, i: nat)
    requires i < |items| && Raises(items[i])
    ensures AnyRaises(items)
  {
    AnyRaisesIff(items);
  }

  /** Loading works item by item: the result for two lists joined is the two results joined. */
  lemma KeptAppend(a: seq<Item>, b: seq<Item>)
    ensures KeptTexts(a + b) == KeptTexts(a) + KeptTexts(b)
    ensures KeptLabels(a + b) == KeptLabels(a) + KeptLabels(b)
  {
    ConcatMapAppend(a, b, TextEntry);
    ConcatMapAppend(a, b, LabelEntry);
  }

  /** One item on its own: a kept item gives its anonymized text and its binary label, any other item nothing. */
  lemma KeptOne(item: Item)
    ensures Kept(item) ==> KeptTexts([item]) == [Anonymize(TextOf(item))] && KeptLabels([item]) == [Binary(LabelOf(item))]
    ensures !Kept(item) ==> KeptTexts([item]) == [] && KeptLabels([item]) == []
  {
    ConcatMapOne(item, TextEntry);
    ConcatMapOne(item, LabelEntry);
  }

  /** An item whose text or label is missing or blank is dropped. */
  lemma BlankItemIsDropped(item: Item)
    requires forall i :: 0 <= i < |StringOr(item.text)| ==> IsSpace(StringOr(item.text)[i])
    ensures KeptTexts([item]) == [] && KeptLabels([item]) == []
  {
    StripEmptyIff(StringOr(item.text));
    KeptOne(item);
  }

  /** The label is compared after trimming and lower-casing: it is 1 exactly when its first four characters lower-case to "prod". */
  lemma BinaryOfRawLabel(raw: string)
    ensures var t := Strip(raw);
      Binary(Lower(t)) == 1 <==>
        |t| >= 4 && LowerChar(t[0]) == 'p' && LowerChar(t[1]) == 'r' && LowerChar(t[2]) == 'o' && LowerChar(t[3]) == 'd'
  {
  }

  /** "Produtivo" and "PRODUCTIVE" count as productive. */
  lemma ProductiveSpellings()
    ensures Binary(Lower("Produtivo")) == 1
    ensures Binary(Lower("PRODUCTIVE")) == 1
  {
    assert Lower("Produtivo")[..4] == "prod";
    assert Lower("PRODUCTIVE")[..4] == "prod";
  }

  /** "Improdutivo" and "nao produtivo" count as unproductive: "prod" must come first. */
  lemma UnproductiveSpellings()
    ensures Binary(Lower("Improdutivo")) == 0
    ensures Binary(Lower("nao produtivo")) == 0
  {
    assert Lower("Improdutivo")[0] == 'i';
    assert Lower("nao produtivo")[0] == 'n';
  }

  // ---------------------------------------------------------------------
  // Augmentation

  const Suffix: string := " Por favor, me retorne."

  const Prefix: string := "Prezados, "

  /** The shorter of two lengths. */
  function Min(a: nat, b: nat): (r: nat)
    ensures r <= a && r <= b && (r == a || r == b)
  {
    if a <= b then a else b
  }

  /** `zip(texts, labels)`: the pairs of the two lists, up to the end of the shorter one. */
  function Zip(texts: seq<string>, labels: seq<int>): seq<(string, int)> {
    seq(Min(|texts|, |labels|), i requires 0 <= i < Min(|texts|, |labels|) => (texts[i], labels[i]))
  }

  /** The labels of a list of pairs. */
  function LabelsOf(pairs: seq<(string, int)>): seq<int> {
    seq(|pairs|, i requires 0 <= i < |pairs| => pairs[i].1)
  }

  /** The texts one pair adds: for label 1, the text with the suffix, then with the prefix; nothing otherwise. */
  function Variants(pair: (string, int)): seq<string> {
    if pair.1 == 1 then [pair.0 + Suffix, Prefix + pair.0] else []
  }

  /** The labels one pair adds: two 1s for label 1; nothing otherwise. */
  function VariantLabels(pair: (string, int)): seq<int> {
    if pair.1 == 1 then [1, 1] else []
  }

  /** The texts the pairs add, in order. */
  function ExtraTexts(pairs: seq<(string, int)>): seq<string> {
    ConcatMap(pairs, Variants)
  }

  /** The labels the pairs add, in order. */
  function ExtraLabels(pairs: seq<(string, int)>): seq<int> {
    ConcatMap(pairs, VariantLabels)
  }

  /**
   * `augment_dataset`: copies of both lists, then two more examples for
   * each pair of `zip(texts, labels)` whose label is 1.
   */
  method AugmentDataset(texts: seq<string>, labels: seq<int>) returns (augTexts: seq<string>, augLabels: seq<int>)
    ensures augTexts == texts + ExtraTexts(Zip(texts, labels))
    ensures augLabels == labels + ExtraLabels(Zip(texts, labels))
  {
    augTexts, augLabels := texts, labels;
    var pairs := Zip(texts, labels);
    for i := 0 to |pairs|
      invariant augTexts == texts + ExtraTexts(pairs[..i])
      invariant augLabels == labels + ExtraLabels(pairs[..i])
    {
      var (text, value) := pairs[i];
      if value == 1 {
        augTexts := augTexts + [text + Suffix];
        augLabels := augLabels + [1];
        augTexts := augTexts + [Prefix + text];
        augLabels := augLabels + [1];
      }
      assert pairs[..i + 1] == pairs[..i] + [pairs[i]];
      ConcatMapSnoc(pairs[..i], pairs[i], Variants);
      ConcatMapSnoc(pairs[..i], pairs[i], VariantLabels);
    }
    assert pairs[..|pairs|] == pairs;
  }

  /** How many times `v` occurs in `s`. */
  function Count(s: seq<int>, v: int): nat
    decreases |s|
  {
    if s == [] then 0 else (if s[0] == v then 1 else 0) + Count(s[1..], v)
  }

  lemma {:induction false} CountAppend(a: seq<int>, b: seq<int>, v: int)
    ensures Count(a + b, v) == Count(a, v) + Count(b, v)
    decreases |a|
  {
    if a == [] {
      assert a + b == b;
    } else {
      assert (a + b)[1..] == a[1..] + b;
      CountAppend(a[1..], b, v);
    }
  }

  /** Two texts and two labels for each pair with label 1, every added label a 1. */
  lemma {:induction false} ExtraShape(pairs: seq<(string, int)>)
    ensures |ExtraTexts(pairs)| == |ExtraLabels(pairs)| == 2 * Count(LabelsOf(pairs), 1)
    ensures Count(ExtraLabels(pairs), 1) == 2 * Count(LabelsOf(pairs), 1)
    ensures forall v :: v != 1 ==> Count(ExtraLabels(pairs), v) == 0
    decreases |pairs|
  {
    if pairs != [] {
      ExtraShape(pairs[1..]);
      assert LabelsOf(pairs)[1..] == LabelsOf(pairs[1..]);
      var head := VariantLabels(pairs[0]);
      assert ExtraLabels(pairs) == head + ExtraLabels(pairs[1..]);
      assert [1, 1][1..] == [1];
      CountAppend(head, ExtraLabels(pairs[1..]), 1);
      forall v | v != 1 ensures Count(ExtraLabels(pairs), v) == 0 {
        CountAppend(head, ExtraLabels(pairs[1..]), v);
      }
    }
  }

  /**
   * After augmentation the number of unproductive examples is unchanged and
   * each productive example among the zipped pairs has gained two more;
   * both outputs grow by the same amount.
   */
  lemma AugmentedCounts(texts: seq<string>, labels: seq<int>)
    ensures var n := Min(|texts|, |labels|);
      var out := labels + ExtraLabels(Zip(texts, labels));
      && Count(out, 1) == Count(labels, 1) + 2 * Count(labels[..n], 1)
      && Count(out, 0) == Count(labels, 0)
      && |texts + ExtraTexts(Zip(texts, labels))| == |texts| + 2 * Count(labels[..n], 1)
      && |out| == |labels| + 2 * Count(labels[..n], 1)
  {
    var pairs := Zip(texts, labels);
    ExtraShape(pairs);
    assert LabelsOf(pairs) == labels[..Min(|texts|, |labels|)];
    CountAppend(labels, ExtraLabels(pairs), 1);
    CountAppend(labels, ExtraLabels(pairs), 0);
  }

  /** With lists of the same length, the productive examples triple and both lists stay the same length. */
  lemma AugmentTriplesProductive(texts: seq<string>, labels: seq<int>)
    requires |texts| == |labels|
    ensures var out := labels + ExtraLabels(Zip(texts, labels));
      && Count(out, 1) == 3 * Count(labels, 1)
      && Count(out, 0) == Count(labels, 0)
      && |texts + ExtraTexts(Zip(texts, labels))| == |out|
  {
    AugmentedCounts(texts, labels);
    assert labels[..|labels|] == labels;
  }

  /** One pair on its own: a productive text gains the suffixed and the prefixed variant, any other text nothing. */
  lemma ExtraOne(text: string, value: int)
    ensures value == 1 ==> ExtraTexts([(text, value)]) == [text + " Por favor, me retorne.", "Prezados, " + text]
    ensures value == 1 ==> ExtraLabels([(text, value)]) == [1, 1]
    ensures value != 1 ==> ExtraTexts([(text, value)]) == [] && ExtraLabels([(text, value)]) == []
  {
    ConcatMapOne((text, value), Variants);
    ConcatMapOne((text, value), VariantLabels);
  }
}
