/**
 * The pieces of the Java platform the program relies on: null references
 * (Option), thrown exceptions (Result and Outcome) and the String and
 * Character operations it calls.  Case mapping is restricted to ASCII.
 */
module JavaLang {
  import opened Ordering

  /** A Java reference that may be null. */
  datatype Option<+T> = None | Some(value: T)

  /** The exceptions the modelled code throws, with their messages. */
  datatype Exception =
    | IllegalArgument(message: string)
    | NullPointer(message: string)
    | IndexOutOfBounds(index: int, length: int)
    | UnsupportedOperation(message: string)

  /** A call that returns a value or throws. */
  datatype Result<+R> = Success(value: R) | Failure(error: Exception)

  /** A void call that returns normally or throws. */
  datatype Outcome = Pass | Fail(error: Exception)

  /** Character.isWhitespace on a char: the ASCII controls U+0009-U+000D and
      U+001C-U+001F, and the space, line and paragraph separators other than
      the non-breaking ones (U+00A0, U+2007, U+202F). */
  predicate IsWhitespace(c: char) {
    || ('\t' <= c <= '\r')
    || ('\U{1C}' <= c <= ' ')
    || c == '\U{1680}'
    || ('\U{2000}' <= c <= '\U{2006}')
    || ('\U{2008}' <= c <= '\U{200A}')
    || c == '\U{2028}' || c == '\U{2029}' || c == '\U{205F}' || c == '\U{3000}'
  }

  /** The drop-from-the-front half of String.trim: characters up to U+0020. */
  function TrimStart(s: string): (r: string)
    ensures |r| <= |s| && r == s[|s| - |r|..]
    ensures r == [] || r[0] > ' '
  {
    if s != [] && s[0] <= ' ' then TrimStart(s[1..]) else s
  }

  /** Every character TrimStart drops is at most U+0020. */
  lemma {:induction false} TrimStartDrops(s: string)
    ensures forall i | 0 <= i < |s| - |TrimStart(s)| :: s[i] <= ' '
  {
    if s != [] && s[0] <= ' ' {
      TrimStartDrops(s[1..]);
      forall i | 1 <= i < |s| - |TrimStart(s)| ensures s[i] <= ' ' {
        assert s[i] == s[1..][i - 1];
      }
    }
  }

  /** The drop-from-the-back half of String.trim. */
  function TrimEnd(s: string): (r: string)
    ensures |r| <= |s| && r == s[..|r|]
    ensures r == [] || r[|r| - 1] > ' '
  {
    if s != [] && s[|s| - 1] <= ' ' then TrimEnd(s[..|s| - 1]) else s
  }

  /** Every character TrimEnd drops is at most U+0020. */
  lemma {:induction false} TrimEndDrops(s: string)
    ensures forall i | |TrimEnd(s)| <= i < |s| :: s[i] <= ' '
  {
    if s != [] && s[|s| - 1] <= ' ' {
      TrimEndDrops(s[..|s| - 1]);
    }
  }

  /** String.trim: the longest middle part that neither starts nor ends with a
      character up to U+0020. */
  function Trim(s: string): (r: string)
    ensures |r| <= |s|
    ensures r == [] || (r[0] > ' ' && r[|r| - 1] > ' ')
  {
    TrimEnd(TrimStart(s))
  }

  /** Trimming leaves a string alone exactly when it has nothing to drop. */
  lemma TrimKeeps(s: string)
    ensures Trim(s) == s <==> (s == [] || (s[0] > ' ' && s[|s| - 1] > ' '))
  {
    if s != [] && s[0] > ' ' && s[|s| - 1] > ' ' {
      assert TrimStart(s) == s;
      assert TrimEnd(s) == s;
    }
  }

  /** A string that String.trim turns into the empty string. */
  predicate IsBlank(s: string) {
    Trim(s) == []
  }

  /** Character.toLowerCase on ASCII letters. */
  function LowerChar(c: char): (r: char)
    ensures 'A' <= c <= 'Z' ==> r as int == c as int + 32
    ensures !('A' <= c <= 'Z') ==> r == c
  {
    if 'A' <= c <= 'Z' then (c as int + 32) as char else c
  }

  /** String.toLowerCase, restricted to ASCII case mapping. */
  function ToLower(s: string): (r: string)
    ensures |r| == |s|
    ensures forall i {:trigger r[i]} :: 0 <= i < |s| ==> r[i] == LowerChar(s[i])
  {
    seq(|s|, i requires 0 <= i < |s| => LowerChar(s[i]))
  }

  /** String.equalsIgnoreCase: same length and every pair of characters equal
      after case mapping. */
  predicate EqualsIgnoreCase(a: string, b: string) {
    |a| == |b| && forall i :: 0 <= i < |a| ==> LowerChar(a[i]) == LowerChar(b[i])
  }

  /** Ignoring case is the same as comparing the lower-cased strings. */
  lemma EqualsIgnoreCaseIsLowerEquality(a: string, b: string)
    ensures EqualsIgnoreCase(a, b) <==> ToLower(a) == ToLower(b)
  {
    if ToLower(a) == ToLower(b) {
      assert |a| == |b|;
      forall i | 0 <= i < |a| ensures LowerChar(a[i]) == LowerChar(b[i]) {
        assert ToLower(a)[i] == ToLower(b)[i];
      }
    }
  }

  /** String.contains: `sub` occurs somewhere in `s`. */
  predicate ContainsString(s: string, sub: string) {
    sub <= s || (s != [] && ContainsString(s[1..], sub))
  }

  /** String.compareTo: the difference of the first differing characters, or
      else the difference of the lengths. */
  function CompareStrings(a: string, b: string): int {
    if a == [] || b == [] then |a| - |b|
    else if a[0] != b[0] then a[0] as int - b[0] as int
    else CompareStrings(a[1..], b[1..])
  }

  lemma {:induction false} CompareStringsZero(a: string, b: string)
    ensures CompareStrings(a, b) == 0 <==> a == b
  {
    if a != [] && b != [] && a[0] == b[0] {
      CompareStringsZero(a[1..], b[1..]);
      assert a == [a[0]] + a[1..] && b == [b[0]] + b[1..];
    }
  }

  lemma {:induction false} CompareStringsFlip(a: string, b: string)
    ensures CompareStrings(a, b) < 0 <==> CompareStrings(b, a) > 0
  {
    if a != [] && b != [] && a[0] == b[0] {
      CompareStringsFlip(a[1..], b[1..]);
    }
  }

  lemma {:induction false} CompareStringsTransitive(a: string, b: string, c: string)
    requires CompareStrings(a, b) < 0 && CompareStrings(b, c) < 0
    ensures CompareStrings(a, c) < 0
  {
    if a != [] && b != [] && c != [] && a[0] == b[0] && b[0] == c[0] {
      CompareStringsTransitive(a[1..], b[1..], c[1..]);
    }
  }

  /** String.compareTo is a total order on strings. */
  lemma CompareStringsIsTotal()
    ensures TotalOrder(CompareStrings)
  {
    forall a, b ensures CompareStrings(a, b) == 0 <==> a == b {
      CompareStringsZero(a, b);
    }
    forall a, b ensures CompareStrings(a, b) < 0 <==> CompareStrings(b, a) > 0 {
      CompareStringsFlip(a, b);
    }
    forall a, b, c | CompareStrings(a, b) < 0 && CompareStrings(b, c) < 0
      ensures CompareStrings(a, c) < 0
    {
      CompareStringsTransitive(a, b, c);
    }
  }

  /** The decimal digits of a natural number, as Integer.toString writes them. */
  function NatToString(n: nat): (r: string)
    ensures |r| > 0
    ensures forall i :: 0 <= i < |r| ==> '0' <= r[i] <= '9'
    ensures n < 10 <==> |r| == 1
  {
    if n < 10 then [(n + '0' as int) as char]
    else NatToString(n / 10) + [(n % 10 + '0' as int) as char]
  }

  /** Integer.toString (and string concatenation of an int). */
  function IntToString(n: int): string {
    if n < 0 then "-" + NatToString(-n) else NatToString(n)
  }
}
