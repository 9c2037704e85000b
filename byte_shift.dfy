/** The byte-level remapping of the tokenizer: the 68 "white-space" byte
    values (controls, space, DEL, the C1 controls, no-break space and the
    soft hyphen) are moved to the codes 256, 257, ... in ascending order, so
    that no token of the merge table contains one of them literally; every
    other byte stands for itself. */
module ByteShift {

  /** Number of bytes that IsWhiteSpace selects. */
  const WhiteSpaceCount: nat := 68

  /** The bytes that are shifted out of the way. */
  predicate IsWhiteSpace(i: int) {
    i <= 32 || (127 <= i <= 160) || i == 173
  }

  /** Number of white-space bytes strictly below `i`: the rank byte `i` gets
      when the table is filled in ascending order. */
  function WhiteSpaceBelow(i: nat): (r: nat)
    ensures r <= i
  {
    if i == 0 then 0
    else WhiteSpaceBelow(i - 1) + (if IsWhiteSpace(i - 1) then 1 else 0)
  }

  /** The value `encodedCharacters[i]` holds once the table is built. */
  function ShiftCode(i: int): (c: int)
    requires 0 <= i < 256
    ensures 0 <= c < 512
  {
    if IsWhiteSpace(i) then 256 + WhiteSpaceBelow(i) else i
  }

  /** The k-th white-space byte in ascending order, written out range by
      range: 0..32, then 127..160, then 173. */
  function WhiteSpaceByte(k: int): (b: int)
    requires 0 <= k < WhiteSpaceCount
    ensures 0 <= b < 256
  {
    if k <= 32 then k else if k <= 66 then k + 94 else 173
  }

  /** The value `whiteSpaceCharacters[k]` holds once the table is built:
      the slots past the 68 white-space bytes keep their initial zero. */
  function WhiteSpaceEntry(k: int): (b: int)
    requires 0 <= k < 256
    ensures 0 <= b < 256
  {
    if k < WhiteSpaceCount then WhiteSpaceByte(k) else 0
  }

  /** The rank of every byte, range by range. */
  lemma {:induction false} WhiteSpaceBelowClosedForm(i: nat)
    requires i <= 256
    ensures WhiteSpaceBelow(i) ==
      if i <= 33 then i
      else if i <= 127 then 33
      else if i <= 161 then i - 94
      else if i <= 173 then 67
      else 68
  {
    if i > 0 {
      WhiteSpaceBelowClosedForm(i - 1);
    }
  }

  /** Exactly 68 byte values are white space. */
  lemma WhiteSpaceCountIsExact()
    ensures WhiteSpaceBelow(256) == WhiteSpaceCount
  {
    WhiteSpaceBelowClosedForm(256);
  }

  /** A byte that is not white space keeps its code; a white-space byte
      lands in [256, 324). */
  lemma ShiftCodeRange(i: int)
    requires 0 <= i < 256
    ensures !IsWhiteSpace(i) ==> ShiftCode(i) == i
    ensures IsWhiteSpace(i) ==> 256 <= ShiftCode(i) < 256 + WhiteSpaceCount
  {
    WhiteSpaceBelowClosedForm(i);
  }

  /** The rank strictly grows from one white-space byte to any later byte. */
  lemma {:induction false} WhiteSpaceBelowGrows(i: nat, j: nat)
    requires i < j && IsWhiteSpace(i)
    ensures WhiteSpaceBelow(i) < WhiteSpaceBelow(j)
  {
    if j > i + 1 {
      WhiteSpaceBelowGrows(i, j - 1);
    }
  }

  /** No two bytes share a shifted code. */
  lemma ShiftCodeInjective(i: int, j: int)
    requires 0 <= i < 256 && 0 <= j < 256
    requires ShiftCode(i) == ShiftCode(j)
    ensures i == j
  {
    ShiftCodeRange(i);
    ShiftCodeRange(j);
    if IsWhiteSpace(i) && IsWhiteSpace(j) && i != j {
      if i < j { WhiteSpaceBelowGrows(i, j); } else { WhiteSpaceBelowGrows(j, i); }
    }
  }

  /** Every code in [256, 324) is the shifted code of the white-space byte
      the reverse table records for it. */
  lemma ShiftCodeOnto(k: int)
    requires 0 <= k < WhiteSpaceCount
    ensures IsWhiteSpace(WhiteSpaceByte(k))
    ensures ShiftCode(WhiteSpaceByte(k)) == 256 + k
  {
    WhiteSpaceBelowClosedForm(WhiteSpaceByte(k));
  }

  /** The reverse table undoes the forward table on every white-space byte. */
  lemma WhiteSpaceEntryInverts(i: int)
    requires 0 <= i < 256 && IsWhiteSpace(i)
    ensures 0 <= ShiftCode(i) - 256 < WhiteSpaceCount
    ensures WhiteSpaceEntry(ShiftCode(i) - 256) == i
  {
    WhiteSpaceBelowClosedForm(i);
  }

  /** The two lookup tables of the tokenizer, filled once at start-up. */
  class ShiftTables {
    var whiteSpaceCharacters: array<int>
    var encodedCharacters: array<int>

    /** Both tables hold what the specification functions say. */
    ghost predicate Ready()
      reads this, whiteSpaceCharacters, encodedCharacters
    {
      && whiteSpaceCharacters.Length == 256
      && encodedCharacters.Length == 256
      && (forall i :: 0 <= i < 256 ==> encodedCharacters[i] == ShiftCode(i))
      && (forall k :: 0 <= k < 256 ==> whiteSpaceCharacters[k] == WhiteSpaceEntry(k))
    }

    /** The zero-filled arrays of the field initialisers, then the call of
        SetupWhiteSpaceShifts made at start-up. */
    constructor ()
      ensures Ready()
      ensures fresh(whiteSpaceCharacters) && fresh(encodedCharacters)
    {
      whiteSpaceCharacters := new int[256](_ => 0);
      encodedCharacters := new int[256](_ => 0);
      new;
      SetupWhiteSpaceShifts();
    }

    /** One ascending pass over the byte values with a running count `n`
        of the white-space bytes seen so far. */
    method SetupWhiteSpaceShifts()
      requires whiteSpaceCharacters.Length == 256 && encodedCharacters.Length == 256
      requires whiteSpaceCharacters != encodedCharacters
      modifies whiteSpaceCharacters, encodedCharacters
      ensures forall i :: 0 <= i < 256 ==> encodedCharacters[i] == ShiftCode(i)
      ensures forall k :: 0 <= k < WhiteSpaceCount ==> whiteSpaceCharacters[k] == WhiteSpaceByte(k)
      ensures forall k :: WhiteSpaceCount <= k < 256 ==> whiteSpaceCharacters[k] == old(whiteSpaceCharacters[k])
    {
      var i, n := 0, 0;
      while i < 256
        invariant 0 <= i <= 256
        invariant n == WhiteSpaceBelow(i) <= WhiteSpaceCount
        invariant forall j :: 0 <= j < i ==> encodedCharacters[j] == ShiftCode(j)
        invariant forall k :: 0 <= k < n ==> whiteSpaceCharacters[k] == WhiteSpaceByte(k)
        invariant forall k :: n <= k < 256 ==> whiteSpaceCharacters[k] == old(whiteSpaceCharacters[k])
      {
        encodedCharacters[i] := i;
        if IsWhiteSpace(i) {
          WhiteSpaceEntryInverts(i);
          encodedCharacters[i] := n + 256;
          whiteSpaceCharacters[n] := i;
          n := n + 1;
        }
        i := i + 1;
        WhiteSpaceBelowClosedForm(i);
      }
      WhiteSpaceCountIsExact();
    }

    /** The forward shift, one character at a time through the forward
        table. */
    method ShiftCharacterUp(text: string) returns (outText: string)
      requires Ready() && IsLatin1(text)
      ensures outText == ShiftUp(text)
    {
      outText := "";
      for i := 0 to |text|
        invariant outText == ShiftUp(text[..i])
      {
        assert text[..i + 1] == text[..i] + [text[i]];
        outText := outText + [encodedCharacters[text[i] as int] as char];
      }
      assert text[..|text|] == text;
    }

    /** The backward shift as written, one character at a time through the
        reverse table. */
    method ShiftCharacterDown(text: string) returns (outText: string)
      requires Ready() && BelowShiftLimit(text)
      ensures outText == ShiftDown(text)
    {
      outText := "";
      for i := 0 to |text|
        invariant outText == ShiftDown(text[..i])
      {
        assert text[..i + 1] == text[..i] + [text[i]];
        var letter := text[i];
        outText := outText + [if letter as int <= 256 then letter
          else whiteSpaceCharacters[letter as int - 256] as char];
      }
      assert text[..|text|] == text;
    }
  }

  /** Every character is a Latin-1 code, i.e. one byte of the raw form. */
  predicate IsLatin1(s: string) {
    forall i :: 0 <= i < |s| ==> s[i] as int < 256
  }

  /** Every character indexes the reverse table without going out of range. */
  predicate BelowShiftLimit(s: string) {
    forall i :: 0 <= i < |s| ==> s[i] as int < 512
  }

  /** Every character is the shifted code of some byte: a byte that is not
      white space, or a code in [256, 324). */
  predicate IsShifted(s: string) {
    forall i :: 0 <= i < |s| ==>
      (s[i] as int < 256 && !IsWhiteSpace(s[i] as int)) || 256 <= s[i] as int < 256 + WhiteSpaceCount
  }

  /** The forward shift, applied to every character of a raw-form string. */
  function ShiftUp(text: string): (r: string)
    requires IsLatin1(text)
    ensures |r| == |text| && BelowShiftLimit(r)
  {
    seq(|text|, i requires 0 <= i < |text| => ShiftCode(text[i] as int) as char)
  }

  /** The backward shift as the source writes it: codes up to AND INCLUDING
      256 pass through, higher ones are looked up in the reverse table. */
  function ShiftDown(text: string): (r: string)
    requires BelowShiftLimit(text)
    ensures |r| == |text|
  {
    seq(|text|, i requires 0 <= i < |text| =>
      if text[i] as int <= 256 then text[i] else WhiteSpaceEntry(text[i] as int - 256) as char)
  }

  /** The backward shift with the boundary the forward table calls for: only
      codes below 256 pass through. */
  function ShiftDownFixed(text: string): (r: string)
    requires BelowShiftLimit(text)
    ensures |r| == |text| && IsLatin1(r)
  {
    seq(|text|, i requires 0 <= i < |text| =>
      if text[i] as int < 256 then text[i] else WhiteSpaceEntry(text[i] as int - 256) as char)
  }

  /** The forward shift yields only shifted codes. */
  lemma ShiftUpIsShifted(s: string)
    requires IsLatin1(s)
    ensures IsShifted(ShiftUp(s))
  {
    forall i | 0 <= i < |s| {
      ShiftCodeRange(s[i] as int);
    }
  }

  /** As written, the round trip recovers every Latin-1 string that holds
      no byte 0. */
  lemma ShiftRoundTripWithoutNul(s: string)
    requires IsLatin1(s)
    requires forall i :: 0 <= i < |s| ==> s[i] != 0 as char
    ensures ShiftDown(ShiftUp(s)) == s
  {
    var u := ShiftUp(s);
    forall i | 0 <= i < |s|
      ensures ShiftDown(u)[i] == s[i]
    {
      var b := s[i] as int;
      if IsWhiteSpace(b) {
        WhiteSpaceEntryInverts(b);
        WhiteSpaceBelowClosedForm(b);
      }
    }
  }

  /** As written, byte 0 is shifted to 256, which the backward shift lets
      through unchanged: the NUL character comes back as U+0100. */
  lemma NulIsNotRecovered()
    ensures ShiftUp([0 as char]) == [256 as char]
    ensures ShiftDown(ShiftUp([0 as char])) == [256 as char]
  {
    assert ShiftCode(0) == 256;
  }

  /** With the corrected boundary, the round trip recovers every Latin-1
      string. */
  lemma ShiftRoundTrip(s: string)
    requires IsLatin1(s)
    ensures ShiftDownFixed(ShiftUp(s)) == s
  {
    var u := ShiftUp(s);
    forall i | 0 <= i < |s|
      ensures ShiftDownFixed(u)[i] == s[i]
    {
      var b := s[i] as int;
      ShiftCodeRange(b);
      if IsWhiteSpace(b) {
        WhiteSpaceEntryInverts(b);
      }
    }
  }

  /** The other direction: undoing and redoing the shift is the identity on
      every string of shifted codes. */
  lemma UnshiftRoundTrip(t: string)
    requires IsShifted(t)
    ensures BelowShiftLimit(t)
    ensures ShiftUp(ShiftDownFixed(t)) == t
  {
    var d := ShiftDownFixed(t);
    forall i | 0 <= i < |t|
      ensures ShiftUp(d)[i] == t[i]
    {
      var c := t[i] as int;
      if c >= 256 {
        ShiftCodeOnto(c - 256);
      }
    }
  }

  /** The backward shift works character by character, so it distributes
      over concatenation. */
  lemma ShiftDownAppend(a: string, b: string)
    requires BelowShiftLimit(a) && BelowShiftLimit(b)
    ensures BelowShiftLimit(a + b)
    ensures ShiftDown(a + b) == ShiftDown(a) + ShiftDown(b)
  {
    var l := ShiftDown(a + b);
    var r := ShiftDown(a) + ShiftDown(b);
    assert |l| == |r|;
    forall i | 0 <= i < |l| ensures l[i] == r[i] {
      if i < |a| { assert (a + b)[i] == a[i]; } else { assert (a + b)[i] == b[i - |a|]; }
    }
  }
}
