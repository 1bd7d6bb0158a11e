/** Slices of a text by positions in its bytes, which abort unless both ends are
    between characters. */
module ByteSlices {
  import opened Basics
  import opened Text

  /** How many bytes a character takes in UTF-8. */
  function Width(c: char): (width: nat)
    ensures 1 <= width <= 4 && (width == 1 <==> c as int < 128)
  {
    if c < '\U{80}' then 1 else if c < '\U{800}' then 2 else if c < '\U{10000}' then 3 else 4
  }

  predicate IsWide(c: char) {
    Width(c) > 1
  }

  /** Where a character starts, in bytes. */
  function Offset(s: string, k: nat): nat
    requires k <= |s|
  {
    if k == 0 then 0 else Offset(s, k - 1) + Width(s[k - 1])
  }

  function Length(s: string): nat {
    Offset(s, |s|)
  }

  lemma {:induction false} OffsetsGrow(s: string, i: nat, j: nat)
    requires i <= j <= |s|
    ensures Offset(s, i) + (j - i) <= Offset(s, j)
    decreases j
  {
    if i < j {
      OffsetsGrow(s, i, j - 1);
    }
  }

  /** The character that starts at this byte, or the end of the text. */
  function CharAt(s: string, byte: int, from: nat): (k: Option<nat>)
    requires from <= |s|
    ensures k.Some? ==> from <= k.value <= |s| && Offset(s, k.value) == byte
    ensures k.None? ==> forall i :: from <= i <= |s| ==> Offset(s, i) != byte
    decreases |s| - from
  {
    if Offset(s, from) == byte then Some(from)
    else if from == |s| then None
    else CharAt(s, byte, from + 1)
  }

  /** `&s[start..end]`. None is the abort. */
  function Slice(s: string, start: int, end: int): Option<string> {
    var i, j := CharAt(s, start, 0), CharAt(s, end, 0);
    if i.Some? && j.Some? && i.value <= j.value then Some(s[i.value..j.value]) else None
  }

  /** `find` of one character. */
  function FindByte(s: string, c: char): Option<nat> {
    if Find(s, c) == |s| then None else Some(Offset(s, Find(s, c)))
  }

  lemma CharAtOffset(s: string, i: nat)
    requires i <= |s|
    ensures CharAt(s, Offset(s, i), 0) == Some(i)
  {
    var k := CharAt(s, Offset(s, i), 0).value;
    if k < i {
      OffsetsGrow(s, k, i);
    } else {
      OffsetsGrow(s, i, k);
    }
  }

  /** Between characters, a slice by bytes is one by characters. */
  lemma SliceBetween(s: string, i: nat, j: nat)
    requires i <= j <= |s|
    ensures Slice(s, Offset(s, i), Offset(s, j)) == Some(s[i..j])
  {
    CharAtOffset(s, i);
    CharAtOffset(s, j);
  }

  lemma SliceFront(s: string, i: nat)
    requires i <= |s|
    ensures Slice(s, 0, Offset(s, i)) == Some(s[..i])
  {
    assert Offset(s, 0) == 0;
    hide Offset, Slice;
    SliceBetween(s, 0, i);
    assert s[0..i] == s[..i];
  }

  lemma SliceBehind(s: string, i: nat)
    requires i <= |s|
    ensures Slice(s, Offset(s, i), Length(s)) == Some(s[i..])
  {
    hide Offset, Slice;
    SliceBetween(s, i, |s|);
    assert s[i..|s|] == s[i..];
  }

  lemma OffsetBehind(s: string, k: nat)
    requires k < |s|
    ensures Offset(s, k + 1) == Offset(s, k) + Width(s[k])
  {
  }

  /** A byte inside a character. */
  lemma InsideChar(s: string, k: nat, byte: int)
    requires k < |s| && Offset(s, k) < byte < Offset(s, k + 1)
    ensures CharAt(s, byte, 0) == None
  {
    hide Offset;
    var at := CharAt(s, byte, 0);
    if at.Some? {
      if at.value <= k {
        OffsetsGrow(s, at.value, k);
      } else {
        OffsetsGrow(s, k + 1, at.value);
      }
    }
  }

  /** Two bytes behind a narrow character is behind the next one too, or inside
      it if that is wide. */
  lemma TwoBehind(s: string, k: nat)
    requires k + 1 < |s| && !IsWide(s[k])
    ensures if IsWide(s[k + 1]) then CharAt(s, Offset(s, k) + 2, 0) == None && Offset(s, k) + 2 < Offset(s, k + 2)
            else Offset(s, k + 2) == Offset(s, k) + 2
  {
    assert Offset(s, k + 1) == Offset(s, k) + 1;
    if IsWide(s[k + 1]) {
      InsideChar(s, k + 1, Offset(s, k) + 2);
    }
  }

  /** The text has a first and a last byte that are characters of their own. */
  predicate HasEnds(text: string) {
    |text| >= 2 && !IsWide(text[0]) && !IsWide(text[|text| - 1])
  }

  /** A text without its first and last byte, which are meant to be brackets or
      quotes. */
  function Inside(text: string): Option<string> {
    Slice(text, 1, Length(text) - 1)
  }

  lemma InsideExactly(text: string)
    ensures Inside(text) == if HasEnds(text) then Some(text[1..|text| - 1]) else None
  {
    var n := |text|;
    if HasEnds(text) {
      assert Offset(text, 1) == 1 && Offset(text, n) == Offset(text, n - 1) + 1;
      hide Offset, Slice;
      SliceBetween(text, 1, n - 1);
    } else if n >= 1 && IsWide(text[0]) {
      assert Offset(text, 1) == Width(text[0]) && Offset(text, 0) == 0;
      hide Offset;
      InsideChar(text, 0, 1);
    } else if n >= 2 {
      assert Offset(text, n) == Offset(text, n - 1) + Width(text[n - 1]);
      hide Offset;
      InsideChar(text, n - 1, Length(text) - 1);
    }
  }
}
