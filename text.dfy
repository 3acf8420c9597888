/** The two string operations the search filter relies on: `toLowerCase`
    (restricted to ASCII letters) and `includes` (substring containment). */
module Text {

  /** `toLowerCase` on one character: the ASCII capitals 'A'..'Z' map to
      'a'..'z', every other character is left alone. */
  function LowerChar(c: char): (r: char)
  {
    if 'A' <= c <= 'Z' then (c as int - 'A' as int + 'a' as int) as char else c
  }

  /** A lower-cased character is never a capital; a capital becomes the
      letter 32 code points above it, and anything else stays as it is. */
  lemma LowerCharSpec(c: char)
    ensures !IsUpper(LowerChar(c))
    ensures !IsUpper(c) ==> LowerChar(c) == c
    ensures IsUpper(c) ==> 'a' <= LowerChar(c) <= 'z'
                           && LowerChar(c) as int - c as int == 'a' as int - 'A' as int
  {
  }

  predicate IsUpper(c: char)
  {
    'A' <= c <= 'Z'
  }

  /** `s.toLowerCase()`, one character at a time. */
  function ToLower(s: string): (r: string)
    ensures |r| == |s|
    ensures forall i :: 0 <= i < |s| ==> r[i] == LowerChar(s[i])
    ensures forall i :: 0 <= i < |r| ==> !IsUpper(r[i])
  {
    if s == [] then [] else [LowerChar(s[0])] + ToLower(s[1..])
  }

  /** Lower-casing twice is lower-casing once. */
  lemma ToLowerIdempotent(s: string)
    ensures ToLower(ToLower(s)) == ToLower(s)
  {
    var once := ToLower(s);
    var twice := ToLower(once);
    forall i | 0 <= i < |s|
      ensures twice[i] == once[i]
    {
      assert !IsUpper(once[i]);
    }
  }

  /** A string without capitals is its own lower-case form. */
  lemma ToLowerOfLower(s: string)
    requires forall i :: 0 <= i < |s| ==> !IsUpper(s[i])
    ensures ToLower(s) == s
  {
    var r := ToLower(s);
    forall i | 0 <= i < |s|
      ensures r[i] == s[i]
    {
    }
  }

  /** `needle` sits in `hay` starting at offset `i`. */
  predicate OccursAt(hay: string, needle: string, i: int)
  {
    0 <= i && i + |needle| <= |hay| && hay[i..i + |needle|] == needle
  }

  /** `hay.includes(needle)`: try each offset from the left. */
  function Includes(hay: string, needle: string): (b: bool)
    ensures b ==> |needle| <= |hay|
    decreases |hay|
  {
    if |needle| > |hay| then false
    else if needle <= hay then true
    else Includes(hay[1..], needle)
  }

  /** `Includes` holds exactly when the needle occurs at some offset. */
  lemma {:induction false} IncludesIff(hay: string, needle: string)
    ensures Includes(hay, needle) <==> exists i :: OccursAt(hay, needle, i)
    decreases |hay|
  {
    if |needle| > |hay| {
      forall i ensures !OccursAt(hay, needle, i) { }
    } else if needle <= hay {
      assert OccursAt(hay, needle, 0);
    } else {
      var tail := hay[1..];
      IncludesIff(tail, needle);
      forall i | OccursAt(hay, needle, i)
        ensures OccursAt(tail, needle, i - 1)
      {
        assert i != 0;
        assert tail[i - 1..i - 1 + |needle|] == hay[i..i + |needle|];
      }
      forall j | OccursAt(tail, needle, j)
        ensures OccursAt(hay, needle, j + 1)
      {
        assert tail[j..j + |needle|] == hay[j + 1..j + 1 + |needle|];
      }
    }
  }

  /** The empty string is included in every string. */
  lemma IncludesEmpty(hay: string)
    ensures Includes(hay, "")
  {
    assert OccursAt(hay, "", 0);
    IncludesIff(hay, "");
  }
}
