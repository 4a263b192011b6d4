/** The signer list of a certificate: validator ids separated by commas. */
module Signers {
  import opened Types
  import opened Validators

  const COMMA: Byte := 0x2c

  /** strings.Join */
  function Join(parts: seq<Bytes>): Bytes {
    if |parts| == 0 then []
    else if |parts| == 1 then parts[0]
    else Join(parts[..|parts| - 1]) + [COMMA] + parts[|parts| - 1]
  }

  /** strings.Split */
  function Split(text: Bytes): (parts: seq<Bytes>)
    ensures |parts| > 0
  {
    if |text| == 0 then [[]]
    else
      var before, last := Split(text[..|text| - 1]), text[|text| - 1];
      if last == COMMA then before + [[]]
      else before[|before| - 1 := before[|before| - 1] + [last]]
  }

  predicate Plain(id: Bytes) {
    id != [] && COMMA !in id
  }

  /** A list of parts with more text at the end of the last one. */
  function Extended(parts: seq<Bytes>, text: Bytes): seq<Bytes>
    requires |parts| > 0
  {
    parts[|parts| - 1 := parts[|parts| - 1] + text]
  }

  lemma SplitOne(text: Bytes, b: Byte)
    ensures Split(text + [b]) == if b == COMMA then Split(text) + [[]] else Extended(Split(text), [b])
  {
    assert (text + [b])[..|text|] == text;
  }

  lemma {:induction false} SplitWord(text: Bytes, word: Bytes)
    requires COMMA !in word
    ensures Split(text + word) == Extended(Split(text), word)
  {
    hide Split;
    if |word| == 0 {
      assert text + word == text && word == [];
      ExtendNothing(Split(text));
    } else {
      var init, last := word[..|word| - 1], word[|word| - 1];
      SplitWord(text, init);
      SplitOne(text + init, last);
      assert text + word == text + init + [last];
      assert word == init + [last];
      ExtendTwice(Split(text), init, last);
    }
  }

  lemma ExtendNothing(parts: seq<Bytes>)
    requires |parts| > 0
    ensures Extended(parts, []) == parts
  {
    assert parts[|parts| - 1] + [] == parts[|parts| - 1];
  }

  lemma ExtendTwice(parts: seq<Bytes>, init: Bytes, last: Byte)
    requires |parts| > 0
    ensures Extended(Extended(parts, init), [last]) == Extended(parts, init + [last])
  {
    assert parts[|parts| - 1] + init + [last] == parts[|parts| - 1] + (init + [last]);
  }

  lemma SplitNothing()
    ensures Split([]) == [[]]
  {}

  lemma SplitPart(before: seq<Bytes>, word: Bytes)
    ensures Extended(before + [[]], word) == before + [word]
  {
    assert [] + word == word;
  }

  lemma {:induction false} SplitJoin(parts: seq<Bytes>)
    requires |parts| > 0 && forall i | 0 <= i < |parts| :: COMMA !in parts[i]
    ensures Split(Join(parts)) == parts
  {
    hide Split, Extended;
    var init, last := parts[..|parts| - 1], parts[|parts| - 1];
    assert parts == init + [last];
    if |parts| == 1 {
      SplitNothing();
      SplitWord([], last);
      assert init == [] && [] + last == last;
      assert Split([]) == init + [[]];
      SplitPart(init, last);
    } else {
      SplitJoin(init);
      SplitOne(Join(init), COMMA);
      SplitWord(Join(init) + [COMMA], last);
      SplitPart(init, last);
    }
  }

  lemma JoinNonEmpty(parts: seq<Bytes>)
    requires |parts| > 0 && parts[0] != []
    ensures Join(parts) != []
  {}

  lemma {:induction false} JoinLast(parts: seq<Bytes>, word: Bytes)
    requires |parts| > 0
    ensures Join(parts[|parts| - 1 := parts[|parts| - 1] + word]) == Join(parts) + word
  {
    var more := parts[|parts| - 1 := parts[|parts| - 1] + word];
    if |parts| > 1 {
      assert more[..|parts| - 1] == parts[..|parts| - 1];
    }
  }

  lemma {:induction false} JoinSplit(text: Bytes)
    ensures Join(Split(text)) == text
  {
    if |text| > 0 {
      var init, last := text[..|text| - 1], text[|text| - 1];
      var before := Split(init);
      JoinSplit(init);
      assert text == init + [last];
      if last == COMMA {
        assert (before + [[]])[..|before|] == before;
      } else {
        JoinLast(before, [last]);
      }
    }
  }

  /** What a signer list stands for: no signers if it is empty, an error if a name is. */
  ghost predicate Lists(signers: Bytes, ids: seq<ValidatorID>) {
    signers == Join(ids) && forall i | 0 <= i < |ids| :: Plain(ids[i])
  }

  lemma ListsUnique(signers: Bytes, a: seq<ValidatorID>, b: seq<ValidatorID>)
    requires Lists(signers, a) && Lists(signers, b)
    ensures a == b
  {
    hide Join, Split;
    if |a| > 0 { SplitJoin(a); JoinNonEmpty(a); }
    if |b| > 0 { SplitJoin(b); JoinNonEmpty(b); }
    assert Join([]) == [] by { JoinNothing(); }
  }

  lemma JoinNothing()
    ensures Join([]) == []
  {}

  method EncodeSigners(ids: seq<ValidatorID>) returns (signers: Bytes)
    ensures signers == Join(ids)
    ensures (forall i | 0 <= i < |ids| :: Plain(ids[i])) ==> forall other :: Lists(signers, other) <==> other == ids
  {
    var parts: seq<Bytes> := [];
    for i := 0 to |ids|
      invariant parts == ids[..i]
    {
      parts := parts + [ids[i]];
    }
    signers := Join(parts);
    assert parts == ids;
    if forall i | 0 <= i < |ids| :: Plain(ids[i]) {
      forall other | Lists(signers, other) ensures other == ids { ListsUnique(signers, other, ids); }
    }
  }

  /** Parsing finds the one list of plain names that a signer list encodes, if there is one. */
  method ParseSigners(signers: Bytes) returns (r: Option<seq<ValidatorID>>)
    ensures forall ids :: Lists(signers, ids) <==> r == Some(ids)
  {
    hide Join, Split;
    JoinNothing();
    if |signers| == 0 {
      forall ids | Lists(signers, ids) ensures ids == [] { ListsUnique(signers, ids, []); }
      return Some([]);
    }
    var parts := Split(signers);
    JoinSplit(signers);
    var parsed: seq<ValidatorID> := [];
    for i := 0 to |parts|
      invariant parsed == parts[..i] && forall j | 0 <= j < i :: parts[j] != []
    {
      if parts[i] == [] {
        forall ids | Lists(signers, ids) ensures false {
          SplitJoin(ids);
        }
        return None;
      }
      parsed := parsed + [parts[i]];
    }
    assert parsed == parts;
    SplitIsPlain(signers);
    assert Lists(signers, parsed);
    forall ids | Lists(signers, ids) ensures ids == parsed { ListsUnique(signers, ids, parsed); }
    return Some(parsed);
  }

  lemma {:induction false} SplitIsPlain(text: Bytes)
    ensures forall i | 0 <= i < |Split(text)| :: COMMA !in Split(text)[i]
  {
    if |text| > 0 { SplitIsPlain(text[..|text| - 1]); }
  }
}
