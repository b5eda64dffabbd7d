/**
 * The phonetic-row classifier `getRow` of the customer list (app/page.js:34-54): the first
 * character of the kana reading picks one of eleven row labels.
 */
module Rows {
  import opened Wrappers

  const Other: string := "他"

  /** The keys of `groupedCustomers`, in the order the object literal declares them. */
  const RowKeys: seq<string> :=
    ["あ行", "か行", "さ行", "た行", "な行", "は行", "ま行", "や行", "ら行", "わ行", Other]

  /** The keys as a set, for statements about map domains. */
  const RowKeySet: set<string> := set k | k in RowKeys

  /** The inclusive katakana ranges of the ten character-class tests, label by label. */
  const KatakanaClasses: seq<seq<(char, char)>> := [
    [('ア', 'オ')],
    [('カ', 'コ'), ('ガ', 'ゴ')],
    [('サ', 'ソ'), ('ザ', 'ゾ')],
    [('タ', 'ト'), ('ダ', 'ド')],
    [('ナ', 'ノ')],
    [('ハ', 'ホ'), ('バ', 'ボ'), ('パ', 'ポ')],
    [('マ', 'モ')],
    [('ヤ', 'ヨ')],
    [('ラ', 'ロ')],
    [('ワ', 'ン')]
  ]

  /** `ch` lies in one of the ranges of a character class. */
  predicate InRanges(ch: char, rs: seq<(char, char)>)
    decreases |rs|
  {
    |rs| > 0 && ((rs[0].0 <= ch <= rs[0].1) || InRanges(ch, rs[1..]))
  }

  /** The chain of regular-expression tests on the first character, first match wins. */
  function RowOfChar(ch: char): (r: string)
    ensures r in RowKeys
  {
    if 'ア' <= ch <= 'オ' then "あ行"
    else if 'カ' <= ch <= 'コ' || 'ガ' <= ch <= 'ゴ' then "か行"
    else if 'サ' <= ch <= 'ソ' || 'ザ' <= ch <= 'ゾ' then "さ行"
    else if 'タ' <= ch <= 'ト' || 'ダ' <= ch <= 'ド' then "た行"
    else if 'ナ' <= ch <= 'ノ' then "な行"
    else if 'ハ' <= ch <= 'ホ' || 'バ' <= ch <= 'ボ' || 'パ' <= ch <= 'ポ' then "は行"
    else if 'マ' <= ch <= 'モ' then "ま行"
    else if 'ヤ' <= ch <= 'ヨ' then "や行"
    else if 'ラ' <= ch <= 'ロ' then "ら行"
    else if 'ワ' <= ch <= 'ン' then "わ行"
    else Other
  }

  /** `getRow(kana)`: a missing or empty reading goes to the "other" row. */
  function GetRow(kana: Option<string>): (r: string)
    ensures r in RowKeys
    ensures kana.None? || kana.value == "" ==> r == Other
    ensures kana.Some? && kana.value != "" ==> r == RowOfChar(kana.value[0])
  {
    if kana.None? || kana.value == "" then Other else RowOfChar(kana.value[0])
  }

  /** No label occurs twice in `keys`. */
  predicate Distinct(keys: seq<string>)
  {
    forall i, j :: 0 <= i < j < |keys| ==> keys[i] != keys[j]
  }

  /** The eleven labels are pairwise different, so each names its own bucket. */
  lemma RowKeysDistinct()
    ensures |RowKeys| == 11 && Distinct(RowKeys)
  {
    forall i, j | 0 <= i < j < |RowKeys|
      ensures RowKeys[i] != RowKeys[j]
    {
      assert i < 10 ==> RowKeys[i][0] != RowKeys[j][0] || |RowKeys[j]| != |RowKeys[i]|;
    }
  }

  /** No character passes two of the ten class tests. */
  lemma ClassesDisjoint(ch: char, i: nat, j: nat)
    requires i < j < |KatakanaClasses|
    ensures !(InRanges(ch, KatakanaClasses[i]) && InRanges(ch, KatakanaClasses[j]))
  {
    ClassBlock(ch, i);
    ClassBlock(ch, j);
  }

  /** First and last character of the contiguous block each class covers. */
  const BlockStart: seq<char> := ['ア', 'カ', 'サ', 'タ', 'ナ', 'ハ', 'マ', 'ヤ', 'ラ', 'ワ']
  const BlockEnd: seq<char> := ['オ', 'ゴ', 'ゾ', 'ド', 'ノ', 'ポ', 'モ', 'ヨ', 'ロ', 'ン']

  /** Each class, plain and voiced ranges together, is one contiguous block, and blocks are increasing. */
  lemma ClassBlock(ch: char, i: nat)
    requires i < |KatakanaClasses|
    ensures InRanges(ch, KatakanaClasses[i]) <==> BlockStart[i] <= ch <= BlockEnd[i]
    ensures i + 1 < |KatakanaClasses| ==> BlockEnd[i] < BlockStart[i + 1]
  {
    var rs := KatakanaClasses[i];
    assert InRanges(ch, rs) <==> exists k :: 0 <= k < |rs| && rs[k].0 <= ch <= rs[k].1 by {
      InRangesIff(ch, rs);
    }
  }

  lemma {:induction false} InRangesIff(ch: char, rs: seq<(char, char)>)
    ensures InRanges(ch, rs) <==> exists k :: 0 <= k < |rs| && rs[k].0 <= ch <= rs[k].1
    decreases |rs|
  {
    if |rs| > 0 {
      InRangesIff(ch, rs[1..]);
      if k :| 0 <= k < |rs| && rs[k].0 <= ch <= rs[k].1 {
        if k > 0 { assert rs[1..][k - 1] == rs[k]; }
      }
      if InRanges(ch, rs[1..]) {
        var k :| 0 <= k < |rs| - 1 && rs[1..][k].0 <= ch <= rs[1..][k].1;
        assert rs[k + 1] == rs[1..][k];
      }
    }
  }

  /** The if-chain gives label `i` exactly to the characters of block `i`. */
  lemma RowOfCharBlock(ch: char, i: nat)
    requires i < 10
    ensures RowOfChar(ch) == RowKeys[i] <==> BlockStart[i] <= ch <= BlockEnd[i]
  {
    // The labels differ in their first character.
    assert RowOfChar(ch) == RowKeys[i] ==> RowOfChar(ch)[0] == RowKeys[i][0];
    if i == 0 {} else if i == 1 {} else if i == 2 {} else if i == 3 {} else if i == 4 {}
    else if i == 5 {} else if i == 6 {} else if i == 7 {} else if i == 8 {} else {}
  }

  /**
   * The if-chain agrees with the class table whatever the order of its tests: a character gets
   * label i exactly when it passes class test i, and "other" exactly when it passes none.
   */
  lemma RowOfCharByTable(ch: char)
    ensures forall i :: 0 <= i < 10 ==> (RowOfChar(ch) == RowKeys[i] <==> InRanges(ch, KatakanaClasses[i]))
    ensures RowOfChar(ch) == Other <==> forall i :: 0 <= i < 10 ==> !InRanges(ch, KatakanaClasses[i])
  {
    RowKeysDistinct();
    forall i | 0 <= i < 10
      ensures RowOfChar(ch) == RowKeys[i] <==> InRanges(ch, KatakanaClasses[i])
    {
      ClassBlock(ch, i);
      RowOfCharBlock(ch, i);
    }
    if RowOfChar(ch) != Other {
      assert RowOfChar(ch) in RowKeys;
      var i :| 0 <= i < |RowKeys| && RowKeys[i] == RowOfChar(ch);
      assert i < 10;
    }
  }

  /** The row depends on the first character of the reading only. */
  lemma FirstCharDecides(a: string, b: string)
    requires a != "" && b != "" && a[0] == b[0]
    ensures GetRow(Some(a)) == GetRow(Some(b))
  {
  }

  /** Sample readings: voiced kana join their plain row; hiragana, Latin letters and ヴ fall to "other". */
  lemma Examples()
    ensures GetRow(Some("ガリレオ")) == "か行" && GetRow(Some("カノン")) == "か行"
    ensures GetRow(Some("ヤマダ ハナコ")) == "や行"
    ensures GetRow(Some("やまだ")) == Other && GetRow(Some("Yamada")) == Other
    ensures GetRow(Some("ヴィオラ")) == Other && GetRow(Some("ァ")) == Other
    ensures GetRow(Some("")) == Other && GetRow(None) == Other
  {
  }
}
