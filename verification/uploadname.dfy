/**
 The name under which an uploaded file is stored: the original name with
 every character outside `[a-zA-Z0-9.-]` replaced by `_`, prefixed with the
 upload time in milliseconds and a dash.
 */
module UploadName {

  /** Characters the sanitiser leaves in place. */
  predicate IsKept(c: char) {
    ('a' <= c <= 'z') || ('A' <= c <= 'Z') || ('0' <= c <= '9') || c == '.' || c == '-'
  }

  /** Characters a sanitised name may consist of. */
  predicate IsSafe(c: char) {
    IsKept(c) || c == '_'
  }

  /** Characters outside the Basic Multilingual Plane take two UTF-16 code units in JavaScript. */
  predicate IsAstral(c: char) {
    c as int > 0xFFFF
  }

  /** Length of `s` as JavaScript counts it, in UTF-16 code units. */
  function Utf16Length(s: string): nat {
    if |s| == 0 then 0 else (if IsAstral(s[0]) then 2 else 1) + Utf16Length(s[1..])
  }

  /**
   The replacement of one character. The pattern has no `u` flag, so it sees
   UTF-16 code units: each half of a surrogate pair is replaced on its own.
   */
  function SanitizeChar(c: char): string {
    if IsKept(c) then [c] else if IsAstral(c) then "__" else "_"
  }

  /** `originalname.replace(/[^a-zA-Z0-9.-]/g, '_')` */
  function Sanitize(name: string): (r: string)
    ensures |r| == Utf16Length(name)
    ensures forall k :: 0 <= k < |r| ==> IsSafe(r[k])
  {
    if |name| == 0 then "" else SanitizeChar(name[0]) + Sanitize(name[1..])
  }

  /** An astral character is two UTF-16 code units, and each is replaced: it becomes `__`. */
  lemma SanitizeAstral(c: char)
    requires IsAstral(c)
    ensures Sanitize([c]) == "__"
  {
    assert [c][1..] == "";
  }

  lemma {:induction false} SanitizeAppend(a: string, b: string)
    ensures Sanitize(a + b) == Sanitize(a) + Sanitize(b)
  {
    if |a| == 0 {
      assert a + b == b;
    } else {
      assert (a + b)[1..] == a[1..] + b;
      SanitizeAppend(a[1..], b);
    }
  }

  /**
   On a name without astral characters the sanitiser works position by
   position: kept characters stay where they are, every other one becomes `_`.
   */
  lemma {:induction false} SanitizePointwise(name: string)
    requires forall k :: 0 <= k < |name| ==> !IsAstral(name[k])
    ensures |Sanitize(name)| == |name|
    ensures forall k :: 0 <= k < |name| ==>
      Sanitize(name)[k] == (if IsKept(name[k]) then name[k] else '_')
  {
    if |name| > 0 {
      SanitizePointwise(name[1..]);
      assert Sanitize(name) == [Sanitize(name)[0]] + Sanitize(name[1..]);
    }
  }

  /** A name is left unchanged exactly when it is already made of safe characters. */
  lemma {:induction false} SanitizeFixesSafeNames(name: string)
    ensures Sanitize(name) == name <==> forall k :: 0 <= k < |name| ==> IsSafe(name[k])
  {
    if |name| > 0 {
      SanitizeFixesSafeNames(name[1..]);
      if forall k :: 0 <= k < |name| ==> IsSafe(name[k]) {
        assert forall k :: 0 <= k < |name[1..]| ==> IsSafe(name[1..][k]) by {
          forall k | 0 <= k < |name[1..]| ensures IsSafe(name[1..][k]) {
            assert name[1..][k] == name[k + 1];
          }
        }
        assert name == [name[0]] + name[1..];
      }
    }
  }

  /** Sanitising twice is sanitising once. */
  lemma SanitizeIdempotent(name: string)
    ensures Sanitize(Sanitize(name)) == Sanitize(name)
  {
    SanitizeFixesSafeNames(Sanitize(name));
  }

  /** The decimal digits of `n`, as `${n}` prints a non-negative integer. */
  function Decimal(n: nat): (r: string)
    ensures |r| >= 1
    ensures forall k :: 0 <= k < |r| ==> '0' <= r[k] <= '9'
    ensures |r| == 1 || r[0] != '0'
  {
    var digit := ['0' + (n % 10) as char];
    if n < 10 then digit else Decimal(n / 10) + digit
  }

  /** The number a string of decimal digits denotes, read left to right. */
  function DigitsValue(ds: string): int {
    if |ds| == 0 then 0 else 10 * DigitsValue(ds[..|ds| - 1]) + (ds[|ds| - 1] as int - '0' as int)
  }

  /** Reading the printed digits back gives the number. */
  lemma {:induction false} DecimalValue(n: nat)
    ensures DigitsValue(Decimal(n)) == n
  {
    var ds := Decimal(n);
    assert ds[|ds| - 1] == '0' + (n % 10) as char;
    if n >= 10 {
      DecimalValue(n / 10);
      assert ds[..|ds| - 1] == Decimal(n / 10);
    } else {
      assert ds[..|ds| - 1] == "";
    }
  }

  /** `${Date.now()}-${sanitizedFilename}`; the clock reading is a parameter. */
  function StoredName(now: nat, originalName: string): (r: string)
    ensures forall k :: 0 <= k < |r| ==> IsSafe(r[k])
    ensures exists p ::
              && 1 < p <= |r| && r[p - 1] == '-' && r[p..] == Sanitize(originalName)
              && (forall k :: 0 <= k < p - 1 ==> '0' <= r[k] <= '9')
              && DigitsValue(r[..p - 1]) == now
              && (p == 2 || r[0] != '0')
  {
    DecimalValue(now);
    var prefix := Decimal(now) + "-";
    var r := prefix + Sanitize(originalName);
    assert r[|prefix|..] == Sanitize(originalName) && r[|prefix| - 1] == '-';
    assert r[..|prefix| - 1] == Decimal(now);
    r
  }
}
