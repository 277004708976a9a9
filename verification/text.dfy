/**
 The JavaScript string operations the handlers rely on: `split(" ")`,
 `startsWith`, `trim`, the first-letter-upper status normaliser, and the
 UTF-16 `length` a password is measured with.
 */
module Text {

  // ---------------------------------------------------------------------------
  // startsWith and split
  // ---------------------------------------------------------------------------

  /** `s.startsWith(prefix)`. */
  predicate StartsWith(s: string, prefix: string)
  {
    |prefix| <= |s| && s[..|prefix|] == prefix
  }

  /** `s.split(sep)` for a one-character separator: the pieces between separators, never empty. */
  function Split(s: string, sep: char): (parts: seq<string>)
    ensures |parts| >= 1
    ensures forall i :: 0 <= i < |parts| ==> sep !in parts[i]
    decreases |s|
  {
    if |s| == 0 then [""]
    else
      var rest := Split(s[1..], sep);
      if s[0] == sep then [""] + rest
      else [[s[0]] + rest[0]] + rest[1..]
  }

  /** `parts.join(sep)`. */
  function Join(parts: seq<string>, sep: char): string
    requires |parts| >= 1
  {
    if |parts| == 1 then parts[0] else parts[0] + [sep] + Join(parts[1..], sep)
  }

  /** Joining the pieces of a split with the same separator restores the text. */
  lemma {:induction false} JoinSplit(s: string, sep: char)
    ensures Join(Split(s, sep), sep) == s
    decreases |s|
  {
    if |s| > 0 {
      var rest := Split(s[1..], sep);
      JoinSplit(s[1..], sep);
      if s[0] == sep {
        assert Split(s, sep)[1..] == rest;
        assert [sep] + s[1..] == s;
      } else {
        var parts := Split(s, sep);
        assert parts[0] == [s[0]] + rest[0];
        if |rest| == 1 {
          assert [s[0]] + s[1..] == s;
        } else {
          assert parts[1..] == rest[1..];
          assert Join(rest, sep) == rest[0] + [sep] + Join(rest[1..], sep);
          assert [s[0]] + (rest[0] + [sep] + Join(rest[1..], sep)) == s;
        }
      }
    }
  }

  /** The characters before the first `sep` (the whole text when there is none). */
  function Word(s: string, sep: char): (w: string)
    ensures sep !in w
    ensures |w| <= |s| && w == s[..|w|]
    ensures |w| < |s| ==> s[|w|] == sep
  {
    if |s| == 0 || s[0] == sep then "" else [s[0]] + Word(s[1..], sep)
  }

  /** Splitting a word, a separator and more text yields the word and then the pieces of the rest. */
  lemma {:induction false} SplitAfterWord(w: string, sep: char, t: string)
    requires sep !in w
    ensures Split(w + [sep] + t, sep) == [w] + Split(t, sep)
    decreases |w|
  {
    var s := w + [sep] + t;
    if |w| == 0 {
      assert s[1..] == t;
    } else {
      assert s[1..] == w[1..] + [sep] + t;
      SplitAfterWord(w[1..], sep, t);
      assert [w[0]] + w[1..] == w;
    }
  }

  /** The first piece of a split is the text up to the first separator. */
  lemma {:induction false} SplitFirst(s: string, sep: char)
    ensures Split(s, sep)[0] == Word(s, sep)
    decreases |s|
  {
    if |s| > 0 && s[0] != sep {
      SplitFirst(s[1..], sep);
    }
  }

  // ---------------------------------------------------------------------------
  // trim
  // ---------------------------------------------------------------------------

  /** The characters `String.prototype.trim` removes: ECMAScript WhiteSpace and LineTerminator. */
  predicate IsJsSpace(c: char)
  {
    var n := c as int;
    n == 0x09 || n == 0x0A || n == 0x0B || n == 0x0C || n == 0x0D || n == 0x20
    || n == 0xA0 || n == 0x1680 || (0x2000 <= n <= 0x200A)
    || n == 0x2028 || n == 0x2029 || n == 0x202F || n == 0x205F || n == 0x3000 || n == 0xFEFF
  }

  function TrimStart(s: string): (r: string)
    ensures |r| <= |s| && r == s[|s| - |r|..]
    ensures |r| > 0 ==> !IsJsSpace(r[0])
    ensures forall i :: 0 <= i < |s| - |r| ==> IsJsSpace(s[i])
  {
    if |s| > 0 && IsJsSpace(s[0]) then TrimStart(s[1..]) else s
  }

  function TrimEnd(s: string): (r: string)
    ensures |r| <= |s| && r == s[..|r|]
    ensures |r| > 0 ==> !IsJsSpace(r[|r| - 1])
    ensures forall i :: |r| <= i < |s| ==> IsJsSpace(s[i])
  {
    if |s| > 0 && IsJsSpace(s[|s| - 1]) then TrimEnd(s[..|s| - 1]) else s
  }

  /** `s.trim()`: the text without leading and trailing white space. */
  function Trim(s: string): (r: string)
  {
    TrimEnd(TrimStart(s))
  }

  /** `!s.trim()`: the text is empty once trimmed. */
  predicate IsBlank(s: string)
  {
    Trim(s) == ""
  }

  /** A text is blank exactly when every character of it is white space. */
  lemma BlankIffAllSpace(s: string)
    ensures IsBlank(s) <==> forall i :: 0 <= i < |s| ==> IsJsSpace(s[i])
  {
    var a := TrimStart(s);
    if forall i :: 0 <= i < |s| ==> IsJsSpace(s[i]) {
      if |a| > 0 {
        assert a[0] == s[|s| - |a|];
      }
    } else {
      var i :| 0 <= i < |s| && !IsJsSpace(s[i]);
      assert i >= |s| - |a|;
      assert a[i - (|s| - |a|)] == s[i];
      var b := TrimEnd(a);
      assert |b| > i - (|s| - |a|);
    }
  }

  // ---------------------------------------------------------------------------
  // Letter case and the status normaliser
  // ---------------------------------------------------------------------------

  /** `toUpperCase` on one character, for the ASCII letters. */
  function UpperChar(c: char): char
  {
    if 'a' <= c <= 'z' then (c as int - 32) as char else c
  }

  /** `toLowerCase` on one character, for the ASCII letters. */
  function LowerChar(c: char): char
  {
    if 'A' <= c <= 'Z' then (c as int + 32) as char else c
  }

  /** `s.toLowerCase()`. */
  function Lower(s: string): (r: string)
    ensures |r| == |s|
    ensures forall i :: 0 <= i < |s| ==> r[i] == LowerChar(s[i])
  {
    seq(|s|, i requires 0 <= i < |s| => LowerChar(s[i]))
  }

  /**
   `status.charAt(0).toUpperCase() + status.slice(1).toLowerCase()`: the first
   character upper case, every other character lower case.
   */
  function NormalizeStatus(s: string): (r: string)
    ensures IsNormalized(r)
    ensures SameIgnoringCase(r, s)
  {
    if |s| == 0 then ""
    else
      CapitalizedShape(s);
      [UpperChar(s[0])] + Lower(s[1..])
  }

  /** The first character upper-cased before the rest lower-cased is normalised and differs only in case. */
  lemma CapitalizedShape(s: string)
    requires |s| > 0
    ensures IsNormalized([UpperChar(s[0])] + Lower(s[1..]))
    ensures SameIgnoringCase([UpperChar(s[0])] + Lower(s[1..]), s)
  {
    var r := [UpperChar(s[0])] + Lower(s[1..]);
    forall i | 1 <= i < |s|
      ensures r[i] == LowerChar(s[i])
    {
      assert r[i] == Lower(s[1..])[i - 1];
    }
  }

  /** The normalised form has the first letter upper case and the others lower case. */
  predicate IsNormalized(s: string)
  {
    (|s| > 0 ==> UpperChar(s[0]) == s[0])
    && forall i :: 1 <= i < |s| ==> LowerChar(s[i]) == s[i]
  }

  /** Two texts that differ only in letter case. */
  predicate SameIgnoringCase(a: string, b: string)
  {
    |a| == |b| && forall i :: 0 <= i < |a| ==> LowerChar(a[i]) == LowerChar(b[i])
  }

  /** The normaliser keeps the length, yields a normalised text, and never changes a normalised one. */
  lemma NormalizeStatusShape(s: string)
    ensures |NormalizeStatus(s)| == |s|
    ensures IsNormalized(NormalizeStatus(s))
    ensures SameIgnoringCase(NormalizeStatus(s), s)
    ensures IsNormalized(s) ==> NormalizeStatus(s) == s
  {
    var r := NormalizeStatus(s);
    if |s| > 0 {
      assert forall i :: 1 <= i < |s| ==> r[i] == LowerChar(s[i]);
      if IsNormalized(s) {
        assert r[0] == s[0];
      }
    }
  }

  /** Normalising twice is the same as normalising once. */
  lemma NormalizeStatusIdempotent(s: string)
    ensures NormalizeStatus(NormalizeStatus(s)) == NormalizeStatus(s)
  {
    NormalizeStatusShape(s);
    NormalizeStatusShape(NormalizeStatus(s));
  }

  /** Upper-casing identifies two characters exactly when lower-casing does. */
  lemma CaseFoldAgree(c: char, d: char)
    ensures UpperChar(c) == UpperChar(d) <==> LowerChar(c) == LowerChar(d)
  {
  }

  /** Texts that differ only in letter case are stored alike. */
  lemma SameCaseNormalizeAlike(a: string, b: string)
    requires SameIgnoringCase(a, b)
    ensures NormalizeStatus(a) == NormalizeStatus(b)
  {
    if |a| > 0 {
      CaseFoldAgree(a[0], b[0]);
      var ra, rb := NormalizeStatus(a), NormalizeStatus(b);
      assert |ra| == |rb|;
      forall i | 0 <= i < |a|
        ensures ra[i] == rb[i]
      {
        if i > 0 {
          assert ra[i] == LowerChar(a[i]) && rb[i] == LowerChar(b[i]);
        }
      }
    }
  }

  /** Two statuses are stored alike exactly when they differ only in letter case. */
  lemma NormalizeStatusCaseInsensitive(a: string, b: string)
    ensures NormalizeStatus(a) == NormalizeStatus(b) <==> SameIgnoringCase(a, b)
  {
    NormalizeStatusShape(a);
    NormalizeStatusShape(b);
    if SameIgnoringCase(a, b) {
      SameCaseNormalizeAlike(a, b);
    }
  }

  /** "shipped", "SHIPPED" and "Shipped" are all stored as "Shipped". */
  lemma NormalizeShipped()
    ensures NormalizeStatus("shipped") == "Shipped"
    ensures NormalizeStatus("SHIPPED") == "Shipped"
    ensures NormalizeStatus("Shipped") == "Shipped"
  {
    assert IsNormalized("Shipped");
    NormalizeStatusShape("Shipped");
    assert SameIgnoringCase("shipped", "Shipped");
    SameCaseNormalizeAlike("shipped", "Shipped");
    assert SameIgnoringCase("SHIPPED", "Shipped") by {
      forall i | 0 <= i < 7
        ensures LowerChar("SHIPPED"[i]) == LowerChar("Shipped"[i])
      {
      }
    }
    SameCaseNormalizeAlike("SHIPPED", "Shipped");
  }

  /** "Packing" and "Delivered" are stored as offered. */
  lemma NormalizeKeepsSingleWords()
    ensures NormalizeStatus("Packing") == "Packing"
    ensures NormalizeStatus("Delivered") == "Delivered"
  {
    assert IsNormalized("Packing");
    assert IsNormalized("Delivered");
    NormalizeStatusShape("Packing");
    NormalizeStatusShape("Delivered");
  }

  /** "Out for Delivery" loses the capital of its last word. */
  lemma NormalizeOutForDelivery()
    ensures NormalizeStatus("Out for Delivery") == "Out for delivery"
  {
    assert IsNormalized("Out for delivery");
    NormalizeStatusShape("Out for delivery");
    assert SameIgnoringCase("Out for Delivery", "Out for delivery");
    SameCaseNormalizeAlike("Out for Delivery", "Out for delivery");
  }

  /** "Order Placed" loses the capital of its second word. */
  lemma NormalizeOrderPlaced()
    ensures NormalizeStatus("Order Placed") == "Order placed"
  {
    assert IsNormalized("Order placed");
    NormalizeStatusShape("Order placed");
    assert SameIgnoringCase("Order Placed", "Order placed");
    SameCaseNormalizeAlike("Order Placed", "Order placed");
  }

  // ---------------------------------------------------------------------------
  // UTF-16 length
  // ---------------------------------------------------------------------------

  /** `s.length`: characters outside the Basic Multilingual Plane count twice (a surrogate pair). */
  function Utf16Length(s: string): (n: nat)
  {
    if |s| == 0 then 0 else (if s[0] as int >= 0x10000 then 2 else 1) + Utf16Length(s[1..])
  }

  /** The UTF-16 length lies between the character count and twice it, and equals the count without astral characters. */
  lemma {:induction false} Utf16LengthBounds(s: string)
    ensures |s| <= Utf16Length(s) <= 2 * |s|
    ensures Utf16Length(s) == |s| <==> forall i :: 0 <= i < |s| ==> s[i] as int < 0x10000
    decreases |s|
  {
    if |s| > 0 {
      Utf16LengthBounds(s[1..]);
      assert forall i :: 1 <= i < |s| ==> s[i] == s[1..][i - 1];
    }
  }
}
