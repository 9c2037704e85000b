/** The byte-pair encoder: the prompt's bytes become one-character tokens of
    the shifted text, every merge rule is applied in file order as one
    left-to-right pass, and the surviving tokens are looked up in the
    vocabulary, those without an entry being dropped. */
module BpeEncoder {
  import opened ByteShift

  /** The bytes of the prompt's UTF-8 encoding. */
  newtype byte = x: int | 0 <= x < 256

  /** Reading bytes as ISO-8859-1 text: one character per byte, same code. */
  function Latin1(bytes: seq<byte>): (s: string)
    ensures |s| == |bytes| && IsLatin1(s)
    ensures forall i :: 0 <= i < |s| ==> s[i] as int == bytes[i] as int
  {
    seq(|bytes|, i requires 0 <= i < |bytes| => bytes[i] as int as char)
  }

  /** All tokens, end to end. */
  function Concat(ts: seq<string>): string {
    if ts == [] then [] else ts[0] + Concat(ts[1..])
  }

  lemma {:induction false} ConcatAppend(a: seq<string>, b: seq<string>)
    ensures Concat(a + b) == Concat(a) + Concat(b)
  {
    if a == [] {
      assert a + b == b;
    } else {
      assert (a + b)[0] == a[0];
      assert (a + b)[1..] == a[1..] + b;
      ConcatAppend(a[1..], b);
    }
  }

  /** The text split into one token per character. */
  function Singletons(s: string): (ts: seq<string>)
    ensures |ts| == |s|
    ensures forall i :: 0 <= i < |ts| ==> ts[i] == [s[i]]
  {
    seq(|s|, i requires 0 <= i < |s| => [s[i]])
  }

  /** Splitting into characters loses nothing. */
  lemma {:induction false} ConcatSingletons(s: string)
    ensures Concat(Singletons(s)) == s
  {
    if s != [] {
      assert Singletons(s)[1..] == Singletons(s[1..]);
      ConcatSingletons(s[1..]);
    }
  }

  // ---------------------------------------------------------------------
  // Merge rules

  /** The first field of `Split(' ')`: everything before the first space. */
  function Field(s: string): (f: string)
    ensures |f| <= |s| && f == s[..|f|] && ' ' !in f
    ensures |f| < |s| ==> s[|f|] == ' '
  {
    if s == [] || s[0] == ' ' then [] else [s[0]] + Field(s[1..])
  }

  /** Every line of the merges file has a space, so `Split(' ')` yields a
      second field. */
  predicate WellFormedMerges(merges: seq<string>) {
    forall i :: 0 <= i < |merges| ==> ' ' in merges[i]
  }

  /** A merges line split at spaces: the first two fields. */
  function SplitMerge(line: string): (pair: (string, string))
    requires ' ' in line
    ensures |pair.0| < |line| && line[..|pair.0|] == pair.0 && line[|pair.0|] == ' '
    ensures pair.1 == Field(line[|pair.0| + 1..])
    ensures ' ' !in pair.0 && ' ' !in pair.1
  {
    var left := Field(line);
    (left, Field(line[|left| + 1..]))
  }

  function MergeRules(merges: seq<string>): (rules: seq<(string, string)>)
    requires WellFormedMerges(merges)
    ensures |rules| == |merges|
    ensures forall i :: 0 <= i < |merges| ==> rules[i] == SplitMerge(merges[i])
  {
    seq(|merges|, i requires 0 <= i < |merges| => SplitMerge(merges[i]))
  }

  /** One left-to-right pass of the rule (left, right): each adjacent pair
      that matches is replaced by the joined token and scanning resumes after
      it; any other token is kept. */
  function MergePass(ts: seq<string>, left: string, right: string): (r: seq<string>)
    ensures |r| <= |ts|
    decreases |ts|
  {
    if |ts| < 2 then ts
    else if ts[0] == left && ts[1] == right then [left + right] + MergePass(ts[2..], left, right)
    else [ts[0]] + MergePass(ts[1..], left, right)
  }

  /** The rules applied one after another, the last one last. */
  function ApplyRules(ts: seq<string>, rules: seq<(string, string)>): (r: seq<string>)
    ensures |r| <= |ts|
    decreases |rules|
  {
    if rules == [] then ts
    else
      var last := rules[|rules| - 1];
      MergePass(ApplyRules(ts, rules[..|rules| - 1]), last.0, last.1)
  }

  /** An adjacent (left, right) pair occurs in the list. */
  predicate HasPair(ts: seq<string>, left: string, right: string) {
    exists i :: 0 <= i < |ts| - 1 && ts[i] == left && ts[i + 1] == right
  }

  /** A pass keeps the text the tokens spell. */
  lemma {:induction false} MergePassKeepsText(ts: seq<string>, left: string, right: string)
    ensures Concat(MergePass(ts, left, right)) == Concat(ts)
    decreases |ts|
  {
    if |ts| >= 2 {
      if ts[0] == left && ts[1] == right {
        MergePassKeepsText(ts[2..], left, right);
        calc {
          Concat(MergePass(ts, left, right));
          left + right + Concat(MergePass(ts[2..], left, right));
          ts[0] + (ts[1] + Concat(ts[2..]));
          { assert ts[1..][1..] == ts[2..]; }
          Concat(ts);
        }
      } else {
        MergePassKeepsText(ts[1..], left, right);
      }
    }
  }

  /** A pass changes the list exactly when the pair occurs in it, and then
      it makes the list shorter. */
  lemma {:induction false} MergePassChangesIffPair(ts: seq<string>, left: string, right: string)
    ensures MergePass(ts, left, right) == ts <==> !HasPair(ts, left, right)
    ensures |MergePass(ts, left, right)| < |ts| <==> HasPair(ts, left, right)
    decreases |ts|
  {
    if |ts| >= 2 {
      if ts[0] == left && ts[1] == right {
        assert HasPair(ts, left, right);
        assert |MergePass(ts[2..], left, right)| <= |ts| - 2;
      } else {
        var tail := ts[1..];
        MergePassChangesIffPair(tail, left, right);
        if HasPair(tail, left, right) {
          var i :| 0 <= i < |tail| - 1 && tail[i] == left && tail[i + 1] == right;
          assert ts[i + 1] == left && ts[i + 2] == right;
        }
        if HasPair(ts, left, right) {
          var i :| 0 <= i < |ts| - 1 && ts[i] == left && ts[i + 1] == right;
          assert i > 0;
          assert tail[i - 1] == left && tail[i] == right;
        }
        assert ts == [ts[0]] + tail;
      }
    }
  }

  /** The first token after a pass is the first token before it, or the
      merged token of a match at the front. */
  lemma MergePassHead(ts: seq<string>, left: string, right: string)
    requires |ts| > 0
    ensures |MergePass(ts, left, right)| > 0
    ensures MergePass(ts, left, right)[0] == ts[0] ||
      (|ts| >= 2 && ts[0] == left && ts[1] == right && MergePass(ts, left, right)[0] == left + right)
  {
  }

  /** With two non-empty sides, a pass leaves no adjacent (left, right)
      pair behind. */
  lemma {:induction false} MergePassIsComplete(ts: seq<string>, left: string, right: string)
    requires left != [] && right != []
    ensures !HasPair(MergePass(ts, left, right), left, right)
    decreases |ts|
  {
    var r := MergePass(ts, left, right);
    if |ts| >= 2 {
      var rest := if ts[0] == left && ts[1] == right then ts[2..] else ts[1..];
      var tail := MergePass(rest, left, right);
      MergePassIsComplete(rest, left, right);
      assert r == [r[0]] + tail;
      if |tail| > 0 {
        MergePassHead(rest, left, right);
        assert |left + right| > |left| && |left + right| > |right|;
        assert !(r[0] == left && tail[0] == right);
      }
      forall i | 0 <= i < |r| - 1
        ensures !(r[i] == left && r[i + 1] == right)
      {
        if i > 0 {
          assert r[i] == tail[i - 1] && r[i + 1] == tail[i];
        }
      }
    }
  }

  /** Applying a rule list is applying its first part, then the rest: rules
      take effect strictly in file order. */
  lemma {:induction false} ApplyRulesInOrder(ts: seq<string>, a: seq<(string, string)>, b: seq<(string, string)>)
    ensures ApplyRules(ts, a + b) == ApplyRules(ApplyRules(ts, a), b)
    decreases |b|
  {
    if b == [] {
      assert a + b == a;
    } else {
      var b' := b[..|b| - 1];
      assert (a + b)[..|a + b| - 1] == a + b';
      assert (a + b)[|a + b| - 1] == b[|b| - 1];
      ApplyRulesInOrder(ts, a, b');
    }
  }

  /** All passes together keep the text the tokens spell. */
  lemma {:induction false} ApplyRulesKeepsText(ts: seq<string>, rules: seq<(string, string)>)
    ensures Concat(ApplyRules(ts, rules)) == Concat(ts)
    decreases |rules|
  {
    if rules != [] {
      var last := rules[|rules| - 1];
      ApplyRulesKeepsText(ts, rules[..|rules| - 1]);
      MergePassKeepsText(ApplyRules(ts, rules[..|rules| - 1]), last.0, last.1);
    }
  }

  /** `List.IndexOf(item, start)`: the first position at or after `start`
      holding `item`, or -1. A start index of `|ts|` is allowed. */
  function IndexOf(ts: seq<string>, item: string, start: int): (n: int)
    requires 0 <= start <= |ts|
    ensures n == -1 || (start <= n < |ts| && ts[n] == item)
    ensures forall j :: start <= j < (if n == -1 then |ts| else n) ==> ts[j] != item
    decreases |ts| - start
  {
    if start == |ts| then -1
    else if ts[start] == item then start
    else IndexOf(ts, item, start + 1)
  }

  /** Tokens that are not `left` are kept by a pass, one by one, up to the
      next `left`. */
  lemma {:induction false} MergePassSkips(ts: seq<string>, left: string, right: string, n: int, f: int)
    requires 0 <= n <= f <= |ts|
    requires forall j :: n <= j < f ==> ts[j] != left
    ensures MergePass(ts[n..], left, right) == ts[n..f] + MergePass(ts[f..], left, right)
    decreases f - n
  {
    if n < f {
      MergePassSkips(ts, left, right, n + 1, f);
      assert ts[n..][1..] == ts[n + 1..];
      assert ts[n..f] == [ts[n]] + ts[n + 1..f];
    }
  }

  /** The scan of the merge loop jumps from `start` to the next `left` (or
      to the end) without changing what the pass will produce. */
  lemma ScanSkips(ts: seq<string>, left: string, right: string, start: int, n: int)
    requires 0 <= start <= n <= |ts|
    requires forall j :: start <= j < n ==> ts[j] != left
    ensures ts[..start] + MergePass(ts[start..], left, right) == ts[..n] + MergePass(ts[n..], left, right)
    ensures n == |ts| ==> ts[..start] + MergePass(ts[start..], left, right) == ts
  {
    MergePassSkips(ts, left, right, start, n);
    assert ts[..start] + ts[start..n] == ts[..n];
    if n == |ts| {
      assert ts[..n] == ts;
      assert ts[n..] == [];
    }
  }

  /** The step of the merge loop at a match: the pair at `n` is joined and
      the scan goes on after the joined token. */
  lemma MergePassAtMatch(ts: seq<string>, left: string, right: string, n: int)
    requires 0 <= n < |ts| - 1 && ts[n] == left && ts[n + 1] == right
    ensures var ts' := ts[..n] + [ts[n] + ts[n + 1]] + ts[n + 2..];
      ts[..n] + MergePass(ts[n..], left, right) == ts'[..n + 1] + MergePass(ts'[n + 1..], left, right)
  {
    var ts' := ts[..n] + [ts[n] + ts[n + 1]] + ts[n + 2..];
    assert ts[n..][2..] == ts[n + 2..];
    assert ts'[..n + 1] == ts[..n] + [left + right];
    assert ts'[n + 1..] == ts[n + 2..];
  }

  /** The step of the merge loop at a `left` with no `right` after it: the
      token is kept and the scan goes on after it. */
  lemma MergePassAtMiss(ts: seq<string>, left: string, right: string, n: int)
    requires 0 <= n < |ts| && ts[n] == left
    requires !(n < |ts| - 1 && ts[n + 1] == right)
    ensures ts[..n] + MergePass(ts[n..], left, right) == ts[..n + 1] + MergePass(ts[n + 1..], left, right)
  {
    assert ts[n..][1..] == ts[n + 1..];
    assert ts[..n + 1] == ts[..n] + [ts[n]];
  }

  /** Applying one more rule is one more pass over the result so far. */
  lemma ApplyRulesExtend(ts: seq<string>, rules: seq<(string, string)>, m: int)
    requires 0 <= m < |rules|
    ensures ApplyRules(ts, rules[..m + 1]) == MergePass(ApplyRules(ts, rules[..m]), rules[m].0, rules[m].1)
  {
    assert rules[..m + 1][..m] == rules[..m];
  }

  /** The merge loop of the encoder. For every line of the merges file, in
      file order, the line is split into its two sides and one pass is made
      over the list of tokens, which the source updates in place (the
      variable `ts`): the position `n` moves forward until IndexOf finds no
      further `left`, and it never exceeds the length of the list, so IndexOf
      is always called with a valid start. */
  method ApplyMerges(inputTokens: seq<string>, merges: seq<string>) returns (ts: seq<string>)
    requires WellFormedMerges(merges)
    ensures ts == ApplyRules(inputTokens, MergeRules(merges))
    ensures Concat(ts) == Concat(inputTokens)
    ensures |ts| <= |inputTokens|
  {
    ghost var rules := MergeRules(merges);
    ts := inputTokens;
    for m := 0 to |merges|
      invariant ts == ApplyRules(inputTokens, rules[..m])
    {
      var pair := SplitMerge(merges[m]);
      var left, right := pair.0, pair.1;
      ghost var target := MergePass(ts, left, right);
      var n := 0;
      while n >= 0
        invariant -1 <= n <= |ts|
        invariant n >= 0 ==> target == ts[..n] + MergePass(ts[n..], left, right)
        invariant n < 0 ==> ts == target
        decreases if n < 0 then 0 else |ts| + 2 - n
      {
        var start := n;
        n := IndexOf(ts, left, n);
        ScanSkips(ts, left, right, start, if n == -1 then |ts| else n);
        if n != -1 {
          if n < |ts| - 1 && ts[n + 1] == right {
            MergePassAtMatch(ts, left, right, n);
            ts := ts[..n] + [ts[n] + ts[n + 1]] + ts[n + 2..];
          } else {
            MergePassAtMiss(ts, left, right, n);
          }
          n := n + 1;
        }
      }
      ApplyRulesExtend(inputTokens, rules, m);
    }
    assert rules[..|merges|] == rules;
    ApplyRulesKeepsText(inputTokens, rules);
  }

  // ---------------------------------------------------------------------
  // Vocabulary lookup and the whole encoder

  /** The ids of the tokens that have a vocabulary entry, in order; the
      others are dropped. */
  function LookupIds(ts: seq<string>, vocab: map<string, int>): (ids: seq<int>)
    ensures |ids| <= |ts|
    ensures forall i :: 0 <= i < |ids| ==> ids[i] in vocab.Values
    decreases |ts|
  {
    if ts == [] then []
    else
      var last := ts[|ts| - 1];
      LookupIds(ts[..|ts| - 1], vocab) + (if last in vocab then [vocab[last]] else [])
  }

  /** When every token is in the vocabulary, nothing is dropped and the ids
      line up with the tokens. */
  lemma {:induction false} LookupIdsAllKnown(ts: seq<string>, vocab: map<string, int>)
    requires forall i :: 0 <= i < |ts| ==> ts[i] in vocab
    ensures |LookupIds(ts, vocab)| == |ts|
    ensures forall i :: 0 <= i < |ts| ==> LookupIds(ts, vocab)[i] == vocab[ts[i]]
    decreases |ts|
  {
    if ts != [] {
      LookupIdsAllKnown(ts[..|ts| - 1], vocab);
    }
  }

  /** The tokens the merge rules leave for the given prompt bytes. */
  function MergedTokens(text: seq<byte>, merges: seq<string>): (ts: seq<string>)
    requires WellFormedMerges(merges)
    ensures |ts| <= |text|
  {
    ApplyRules(Singletons(ShiftUp(Latin1(text))), MergeRules(merges))
  }

  /** The encoder's result for the given prompt bytes: never more ids than
      bytes, and every id a vocabulary id. */
  function Encode(text: seq<byte>, vocab: map<string, int>, merges: seq<string>): (ids: seq<int>)
    requires WellFormedMerges(merges)
    ensures |ids| <= |text|
    ensures forall i :: 0 <= i < |ids| ==> ids[i] in vocab.Values
  {
    LookupIds(MergedTokens(text, merges), vocab)
  }

  /** The merged tokens spell the shifted prompt. */
  lemma MergedTokensSpellText(text: seq<byte>, merges: seq<string>)
    requires WellFormedMerges(merges)
    ensures Concat(MergedTokens(text, merges)) == ShiftUp(Latin1(text))
  {
    var s := ShiftUp(Latin1(text));
    ApplyRulesKeepsText(Singletons(s), MergeRules(merges));
    ConcatSingletons(s);
  }

  /** The encoder: text to one-character tokens, the merges, then the
      lookups. */
  method GetTokens(text: seq<byte>, vocab: map<string, int>, merges: seq<string>) returns (ids: seq<int>)
    requires WellFormedMerges(merges)
    ensures ids == Encode(text, vocab, merges)
    ensures |ids| <= |text|
    ensures forall i :: 0 <= i < |ids| ==> ids[i] in vocab.Values
  {
    var shifted := ShiftUp(Latin1(text));
    var inputTokens: seq<string> := [];
    for i := 0 to |shifted|
      invariant inputTokens == Singletons(shifted[..i])
    {
      inputTokens := inputTokens + [[shifted[i]]];
    }
    assert shifted[..|shifted|] == shifted;
    inputTokens := ApplyMerges(inputTokens, merges);
    ids := [];
    for i := 0 to |inputTokens|
      invariant ids == LookupIds(inputTokens[..i], vocab)
    {
      assert inputTokens[..i + 1][..i] == inputTokens[..i];
      var token := inputTokens[i];
      if token in vocab {
        ids := ids + [vocab[token]];
      }
    }
    assert inputTokens[..|inputTokens|] == inputTokens;
  }

  // ---------------------------------------------------------------------
  // Decoding

  /** Every id indexes the reverse table and names a subword whose
      characters the backward shift can look up. */
  predicate Decodable(ids: seq<int>, tokens: seq<string>) {
    forall i :: 0 <= i < |ids| ==> 0 <= ids[i] < |tokens| && BelowShiftLimit(tokens[ids[i]])
  }

  /** The subwords of the ids, joined. */
  function Subwords(ids: seq<int>, tokens: seq<string>): string
    requires forall i :: 0 <= i < |ids| ==> 0 <= ids[i] < |tokens|
    decreases |ids|
  {
    if ids == [] then [] else Subwords(ids[..|ids| - 1], tokens) + tokens[ids[|ids| - 1]]
  }

  /** `GetUnicodeText` up to its UTF-8 step, applied to one id after
      another: each subword shifted back as the source does it, with the
      `<= 256` boundary. One character comes out per subword character. */
  function Detokenize(ids: seq<int>, tokens: seq<string>): (s: string)
    requires Decodable(ids, tokens)
    ensures |s| == |Subwords(ids, tokens)|
    decreases |ids|
  {
    if ids == [] then []
    else Detokenize(ids[..|ids| - 1], tokens) + ShiftDown(tokens[ids[|ids| - 1]])
  }

  /** Shifting back one subword at a time is shifting back the joined
      subwords. */
  lemma {:induction false} DetokenizeIsShiftOfSubwords(ids: seq<int>, tokens: seq<string>)
    requires Decodable(ids, tokens)
    ensures BelowShiftLimit(Subwords(ids, tokens))
    ensures Detokenize(ids, tokens) == ShiftDown(Subwords(ids, tokens))
    decreases |ids|
  {
    if ids != [] {
      var n := |ids| - 1;
      DetokenizeIsShiftOfSubwords(ids[..n], tokens);
      ShiftDownAppend(Subwords(ids[..n], tokens), tokens[ids[n]]);
    }
  }

  /** The subwords of ids that line up with a token list spell that list. */
  lemma {:induction false} SubwordsAreConcat(ts: seq<string>, ids: seq<int>, tokens: seq<string>)
    requires |ids| == |ts|
    requires forall i :: 0 <= i < |ids| ==> 0 <= ids[i] < |tokens| && tokens[ids[i]] == ts[i]
    ensures Subwords(ids, tokens) == Concat(ts)
    decreases |ts|
  {
    if ts != [] {
      var n := |ts| - 1;
      SubwordsAreConcat(ts[..n], ids[..n], tokens);
      assert ts == ts[..n] + [ts[n]];
      ConcatAppend(ts[..n], [ts[n]]);
      assert Concat([ts[n]]) == ts[n] by { assert [ts[n]][1..] == []; }
    }
  }

  /** Both halves of a string of shifted codes are strings of shifted codes. */
  lemma ShiftedHalves(a: string, b: string)
    requires IsShifted(a + b)
    ensures IsShifted(a) && IsShifted(b)
  {
    forall j | 0 <= j < |a| ensures (a + b)[j] == a[j] { }
    forall j | 0 <= j < |b| ensures (a + b)[|a| + j] == b[j] { }
  }

  /** Every token of a list that spells shifted codes is made of shifted
      codes. */
  lemma {:induction false} ConcatPartsAreShifted(ts: seq<string>, i: int)
    requires 0 <= i < |ts| && IsShifted(Concat(ts))
    ensures IsShifted(ts[i])
    decreases |ts|
  {
    ShiftedHalves(ts[0], Concat(ts[1..]));
    if i > 0 {
      ConcatPartsAreShifted(ts[1..], i - 1);
    }
  }

  /** When every merged token has a vocabulary entry and the reverse table
      inverts the vocabulary, the encoder's ids name subwords of shifted
      codes that spell the shifted prompt. */
  lemma EncodedSubwords(text: seq<byte>, vocab: map<string, int>, merges: seq<string>, tokens: seq<string>)
    requires WellFormedMerges(merges)
    requires forall k :: k in vocab ==> 0 <= vocab[k] < |tokens| && tokens[vocab[k]] == k
    requires forall t :: t in MergedTokens(text, merges) ==> t in vocab
    ensures Decodable(Encode(text, vocab, merges), tokens)
    ensures Subwords(Encode(text, vocab, merges), tokens) == ShiftUp(Latin1(text))
  {
    var ts := MergedTokens(text, merges);
    var ids := Encode(text, vocab, merges);
    LookupIdsAllKnown(ts, vocab);
    MergedTokensSpellText(text, merges);
    ShiftUpIsShifted(Latin1(text));
    forall i | 0 <= i < |ids|
      ensures 0 <= ids[i] < |tokens| && tokens[ids[i]] == ts[i] && BelowShiftLimit(tokens[ids[i]])
    {
      ConcatPartsAreShifted(ts, i);
    }
    SubwordsAreConcat(ts, ids, tokens);
  }

  /** As written: encoding, then decoding every id against a reverse table
      that inverts the vocabulary, gives back the prompt's bytes, provided
      the prompt holds no byte 0 and every merged token has a vocabulary
      entry. */
  lemma EncodeDecodeRoundTrip(text: seq<byte>, vocab: map<string, int>, merges: seq<string>, tokens: seq<string>)
    requires WellFormedMerges(merges)
    requires forall k :: k in vocab ==> 0 <= vocab[k] < |tokens| && tokens[vocab[k]] == k
    requires forall t :: t in MergedTokens(text, merges) ==> t in vocab
    requires forall i :: 0 <= i < |text| ==> text[i] != 0
    ensures Decodable(Encode(text, vocab, merges), tokens)
    ensures Detokenize(Encode(text, vocab, merges), tokens) == Latin1(text)
  {
    var raw := Latin1(text);
    EncodedSubwords(text, vocab, merges, tokens);
    DetokenizeIsShiftOfSubwords(Encode(text, vocab, merges), tokens);
    assert forall i :: 0 <= i < |raw| ==> raw[i] != 0 as char by {
      forall i | 0 <= i < |raw| ensures raw[i] != 0 as char {
        assert raw[i] as int == text[i] as int;
      }
    }
    ShiftRoundTripWithoutNul(raw);
  }

  /** With the corrected boundary the round trip holds for every prompt:
      shifting the joined subwords of the ids back gives the prompt's
      bytes. */
  lemma EncodeDecodeRoundTripFixed(text: seq<byte>, vocab: map<string, int>, merges: seq<string>, tokens: seq<string>)
    requires WellFormedMerges(merges)
    requires forall k :: k in vocab ==> 0 <= vocab[k] < |tokens| && tokens[vocab[k]] == k
    requires forall t :: t in MergedTokens(text, merges) ==> t in vocab
    ensures Decodable(Encode(text, vocab, merges), tokens)
    ensures BelowShiftLimit(Subwords(Encode(text, vocab, merges), tokens))
    ensures ShiftDownFixed(Subwords(Encode(text, vocab, merges), tokens)) == Latin1(text)
  {
    EncodedSubwords(text, vocab, merges, tokens);
    ShiftRoundTrip(Latin1(text));
  }

  /** As written, the prompt made of the single byte 0 does not survive: with
      the vocabulary {U+0100: 0} and no merges it encodes to [0], and that id
      decodes to U+0100 rather than NUL. */
  lemma NulPromptIsNotRecovered()
    ensures Encode([0], map[[256 as char] := 0], []) == [0]
    ensures Decodable([0], [[256 as char]])
    ensures Detokenize([0], [[256 as char]]) == [256 as char] != Latin1([0])
  {
    assert ShiftCode(0) == 256;
    var shifted := ShiftUp(Latin1([0]));
    assert shifted == [256 as char];
    assert Singletons(shifted) == [[256 as char]];
    assert MergeRules([]) == [];
    var ts := MergedTokens([0], []);
    assert ts == [[256 as char]];
    assert ts[..0] == [];
    assert ShiftDown([256 as char]) == [256 as char];
    assert [0][..0] == [];
    assert Latin1([0])[0] == 0 as char;
  }

  // ---------------------------------------------------------------------
  // Examples

  /** The vocabulary and the rule of the worked example. */
  const ExampleVocab: map<string, int> := map["a" := 0, "b" := 1, "ab" := 2]
  const ExampleMerges: seq<string> := ["a b"]

  /** The example rule splits into its two sides. */
  lemma ExampleRuleSplits()
    ensures WellFormedMerges(ExampleMerges)
    ensures MergeRules(ExampleMerges) == [("a", "b")]
  {
    var line := ExampleMerges[0];
    assert line[1] == ' ';
    assert line[1..][0] == ' ';
    assert Field(line[1..]) == [];
    assert Field(line) == "a";
    assert line[2..] == "b";
    assert line[2..][1..] == [];
    assert Field("b") == "b";
    assert SplitMerge(line) == ("a", "b");
  }

  /** "ab" becomes the single token "ab". */
  lemma EncodeMergesPair()
    ensures WellFormedMerges(ExampleMerges)
    ensures Encode([97, 98], ExampleVocab, ExampleMerges) == [2]
  {
    ExampleRuleSplits();
    assert ShiftUp(Latin1([97, 98])) == "ab";
    assert Singletons("ab") == ["a", "b"];
    var ts: seq<string> := ["a", "b"];
    assert MergePass(ts, "a", "b") == ["a" + "b"] + MergePass([], "a", "b");
    var rules := [("a", "b")];
    assert rules[..0] == [];
    assert ApplyRules(ts, rules) == MergePass(ApplyRules(ts, []), "a", "b");
    assert MergePass([], "a", "b") == [];
    assert "a" + "b" == "ab";
    assert ApplyRules(ts, rules) == ["ab"];
    assert MergedTokens([97, 98], ExampleMerges) == ["ab"];
  }

  /** In "aab" only the adjacent a, b merge; the leading "a" stays. */
  lemma EncodeLeavesLeadingToken()
    ensures WellFormedMerges(ExampleMerges)
    ensures Encode([97, 97, 98], ExampleVocab, ExampleMerges) == [0, 2]
  {
    ExampleRuleSplits();
    assert ShiftUp(Latin1([97, 97, 98])) == "aab";
    assert Singletons("aab") == ["a", "a", "b"];
    var ts: seq<string> := ["a", "a", "b"];
    assert MergePass(ts, "a", "b") == ["a"] + MergePass(ts[1..], "a", "b");
    assert ts[1..] == ["a", "b"];
    assert MergePass(["a", "b"], "a", "b") == ["a" + "b"] + MergePass([], "a", "b");
    var rules := [("a", "b")];
    assert rules[..0] == [];
    assert ApplyRules(ts, rules) == MergePass(ApplyRules(ts, []), "a", "b");
    assert MergePass([], "a", "b") == [];
    assert "a" + "b" == "ab";
    assert ApplyRules(ts, rules) == ["a", "ab"];
    assert MergedTokens([97, 97, 98], ExampleMerges) == ["a", "ab"];
    var merged: seq<string> := ["a", "ab"];
    assert merged[..1] == ["a"] && ["a"][..0] == [];
    assert LookupIds(["a"], ExampleVocab) == [0];
    assert LookupIds(merged, ExampleVocab) == LookupIds(["a"], ExampleVocab) + [2];
  }

  /** A character the vocabulary does not know is dropped. */
  lemma EncodeDropsUnknown()
    ensures WellFormedMerges(ExampleMerges)
    ensures Encode([97, 99], ExampleVocab, ExampleMerges) == [0]
  {
    ExampleRuleSplits();
    assert ShiftUp(Latin1([97, 99])) == "ac";
    assert Singletons("ac") == ["a", "c"];
    assert MergedTokens([97, 99], ExampleMerges) == ["a", "c"];
    assert LookupIds(["a", "c"], ExampleVocab) == LookupIds(["a"], ExampleVocab);
  }
}
