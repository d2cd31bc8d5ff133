/** Values every other module shares: optional results, character classes, ASCII case. */
module Text {
  datatype Option<+T> = None | Some(value: T)

  datatype Result<+T, +E> = Ok(value: T) | Err(error: E) {
    function ToOption(): Option<T> {
      match this
      case Ok(v) => Some(v)
      case Err(_) => None
    }
  }

  newtype Byte = i: int | 0 <= i < 256

  predicate IsUpper(c: char) { 'A' <= c <= 'Z' }

  predicate IsLower(c: char) { 'a' <= c <= 'z' }

  predicate IsDigit(c: char) { '0' <= c <= '9' }

  predicate IsLetter(c: char) { IsUpper(c) || IsLower(c) }

  function ToLower(c: char): char {
    if IsUpper(c) then (c as int + 32) as char else c
  }

  function ToUpper(c: char): char {
    if IsLower(c) then (c as int - 32) as char else c
  }

  predicate IsSuffix(x: string, s: string) {
    |x| <= |s| && s[|s| - |x|..] == x
  }

  /** Sequencing of two partial texts: the whole is known only when both parts are. */
  function Join<T>(a: Option<seq<T>>, b: Option<seq<T>>): Option<seq<T>> {
    match (a, b)
    case (Some(x), Some(y)) => Some(x + y)
    case _ => None
  }

  lemma {:induction false} JoinAssociative<T>(a: Option<seq<T>>, b: Option<seq<T>>, c: Option<seq<T>>)
    ensures Join(Join(a, b), c) == Join(a, Join(b, c))
  {
    if a.Some? && b.Some? && c.Some? {
      assert (a.value + b.value) + c.value == a.value + (b.value + c.value);
    }
  }

  lemma {:induction false} SliceOfSlice(s: string, a: nat, b: nat, i: nat, j: nat)
    requires a <= b <= |s| && i <= j <= b - a
    ensures s[a..b][i..j] == s[a + i..a + j]
  {
    var x, y := s[a..b][i..j], s[a + i..a + j];
    assert forall k | 0 <= k < |x| :: x[k] == y[k];
  }

  // ---------- UTF-8 lengths ----------

  function Utf8Width(c: char): (n: nat)
    ensures 1 <= n <= 4
  {
    if c as int < 0x80 then 1 else if c as int < 0x800 then 2 else if c as int < 0x1_0000 then 3 else 4
  }

  function Utf8Len(text: string): nat {
    if text == [] then 0 else Utf8Width(text[0]) + Utf8Len(text[1..])
  }

  /** How many characters lie whole within the first `pos` bytes. */
  function CharIndex(text: string, pos: nat): (i: nat)
    ensures i <= |text|
  {
    if text == [] || Utf8Width(text[0]) > pos then 0 else 1 + CharIndex(text[1..], pos - Utf8Width(text[0]))
  }

  /** Byte offsets of characters come back as the characters. */
  lemma {:induction false} CharIndexOfOffset(text: string, i: nat)
    requires i <= |text|
    ensures CharIndex(text, Utf8Len(text[..i])) == i
  {
    if i > 0 {
      CharIndexOfOffset(text[1..], i - 1);
      assert text[..i][0] == text[0] && text[..i][1..] == text[1..][..i - 1];
    } else if text != [] {
      assert Utf8Len(text[..0]) == 0;
    }
  }
}
