/**
 The slice of JavaScript string semantics the application relies on:
 `toLowerCase` (on ASCII letters), `includes`, `Array.prototype.join`
 (which is what `String(array)` does), `trim` and the regular-expression
 class `\s`.
 */
module JsString {

  /** Upper-case ASCII letters, the only characters `Lower` changes. */
  predicate IsUpperAscii(c: char) {
    'A' <= c <= 'Z'
  }

  function LowerChar(c: char): (r: char)
    ensures !IsUpperAscii(r)
    ensures IsUpperAscii(c) ==> r as int == c as int + 32
    ensures !IsUpperAscii(c) ==> r == c
  {
    if IsUpperAscii(c) then (c as int + 32) as char else c
  }

  /** `s.toLowerCase()`, restricted to the ASCII case mapping. */
  function Lower(s: string): (r: string)
    ensures |r| == |s|
    ensures forall i :: 0 <= i < |r| ==> !IsUpperAscii(r[i])
    ensures forall i :: 0 <= i < |s| && IsUpperAscii(s[i]) ==> r[i] as int == s[i] as int + 32
    ensures forall i :: 0 <= i < |s| && !IsUpperAscii(s[i]) ==> r[i] == s[i]
  {
    seq(|s|, i requires 0 <= i < |s| => LowerChar(s[i]))
  }

  lemma LowerIdempotent(s: string)
    ensures Lower(Lower(s)) == Lower(s)
  {
  }

  /** `hay.includes(needle)`: `needle` occurs at some position of `hay`. */
  predicate Contains(hay: string, needle: string)
    decreases |hay|
  {
    |needle| <= |hay| && (hay[..|needle|] == needle || Contains(hay[1..], needle))
  }

  /** `needle` occurs in `hay` starting at index `i`. */
  predicate OccursAt(hay: string, needle: string, i: int) {
    0 <= i <= |hay| - |needle| && hay[i..i + |needle|] == needle
  }

  /** `Contains` agrees with the positional definition of a substring occurrence. */
  lemma {:induction false} ContainsIffOccurs(hay: string, needle: string)
    ensures Contains(hay, needle) <==> exists i :: OccursAt(hay, needle, i)
    decreases |hay|
  {
    if |hay| > 0 {
      ContainsIffOccurs(hay[1..], needle);
    }
    forall i | OccursAt(hay, needle, i)
      ensures Contains(hay, needle)
    {
      if i > 0 {
        OccursInTail(hay, needle, i);
      }
    }
    if Contains(hay, needle) {
      if hay[..|needle|] == needle {
        assert OccursAt(hay, needle, 0);
      } else {
        var j :| OccursAt(hay[1..], needle, j);
        OccursInTail(hay, needle, j + 1);
      }
    }
  }

  /** An occurrence past the first character is an occurrence in the tail. */
  lemma {:induction false} OccursInTail(hay: string, needle: string, i: int)
    requires 0 < i && |hay| > 0
    ensures OccursAt(hay, needle, i) <==> OccursAt(hay[1..], needle, i - 1)
  {
    if i <= |hay| - |needle| {
      assert hay[1..][i - 1..i - 1 + |needle|] == hay[i..i + |needle|];
    }
  }

  /** Every string includes the empty string. */
  lemma ContainsEmpty(hay: string)
    ensures Contains(hay, "")
  {
    assert hay[..0] == "";
  }

  /** A string that contains `needle` contains every character of `needle`. */
  lemma ContainsChar(hay: string, needle: string, k: nat)
    requires Contains(hay, needle)
    requires k < |needle|
    ensures exists i :: 0 <= i < |hay| && hay[i] == needle[k]
  {
    ContainsIffOccurs(hay, needle);
    var i :| OccursAt(hay, needle, i);
    assert hay[i + k] == hay[i..i + |needle|][k];
  }

  /** `items.join(sep)`; `String(items)` is `Join(items, ",")`. */
  function Join(items: seq<string>, sep: string): (r: string)
    ensures items == [] ==> r == ""
    ensures |items| == 1 ==> r == items[0]
  {
    if |items| == 0 then ""
    else if |items| == 1 then items[0]
    else items[0] + sep + Join(items[1..], sep)
  }

  /** The characters `\s` matches and `trim` removes: ECMAScript WhiteSpace and LineTerminator. */
  predicate IsJsSpace(c: char) {
    var n := c as int;
    || 0x09 <= n <= 0x0D || n == 0x20 || n == 0xA0 || n == 0x1680
    || 0x2000 <= n <= 0x200A || n == 0x2028 || n == 0x2029 || n == 0x202F
    || n == 0x205F || n == 0x3000 || n == 0xFEFF
  }

  /** `s.trimStart()` */
  function TrimStart(s: string): (r: string)
    ensures |r| <= |s| && r == s[|s| - |r|..]
    ensures r == [] || !IsJsSpace(r[0])
    ensures forall k :: 0 <= k < |s| - |r| ==> IsJsSpace(s[k])
  {
    if |s| > 0 && IsJsSpace(s[0]) then TrimStart(s[1..]) else s
  }

  /** `s.trimEnd()` */
  function TrimEnd(s: string): (r: string)
    ensures |r| <= |s| && r == s[..|r|]
    ensures r == [] || !IsJsSpace(r[|r| - 1])
    ensures forall k :: |r| <= k < |s| ==> IsJsSpace(s[k])
  {
    if |s| > 0 && IsJsSpace(s[|s| - 1]) then TrimEnd(s[..|s| - 1]) else s
  }

  /** `s.trim()` */
  function Trim(s: string): (r: string)
  {
    TrimEnd(TrimStart(s))
  }

  /** Trimming removes only surrounding white space: it returns a slice of `s` that neither starts nor ends with it. */
  lemma TrimIsCore(s: string)
    ensures exists a, b ::
              && 0 <= a <= b <= |s| && Trim(s) == s[a..b]
              && (forall k :: 0 <= k < a ==> IsJsSpace(s[k]))
              && (forall k :: b <= k < |s| ==> IsJsSpace(s[k]))
    ensures Trim(s) == [] || (!IsJsSpace(Trim(s)[0]) && !IsJsSpace(Trim(s)[|Trim(s)| - 1]))
  {
    var t := TrimStart(s);
    var a := |s| - |t|;
    var b := a + |TrimEnd(t)|;
    assert Trim(s) == s[a..b];
  }

  /** A string with no white space is its own trim. */
  lemma TrimNoSpace(s: string)
    requires forall k :: 0 <= k < |s| ==> !IsJsSpace(s[k])
    ensures Trim(s) == s
  {
  }
}
