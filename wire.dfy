/**
 * The byte- and string-level primitives that the BTR2 protocol code takes from
 * JavaScript's `Buffer` and `String`: searching and slicing byte buffers,
 * the 'ascii' encoding in both directions, `split`, `join`, `reverse`,
 * `includes`, and `Number.prototype.toString(radix)` with its inverse.
 */
module Wire {

  type Byte = b: int | 0 <= b < 256

  datatype Option<T> = None | Some(value: T)

  /** A settled promise: resolved with a value, or rejected with an `Error` whose message is given. */
  datatype Result<T> = Ok(value: T) | Err(message: string)

  function Min(a: int, b: int): int
  {
    if a <= b then a else b
  }

  // ---------------------------------------------------------------------------
  // Buffers
  // ---------------------------------------------------------------------------

  /** `buffer.indexOf(b)`: the first position holding `b`, or -1 when there is none. */
  function IndexOf(s: seq<Byte>, b: Byte): (r: int)
    ensures -1 <= r < |s|
    ensures r == -1 <==> b !in s
    ensures r >= 0 ==> s[r] == b && b !in s[..r]
  {
    if s == [] then -1
    else if s[0] == b then 0
    else
      var k := IndexOf(s[1..], b);
      if k == -1 then -1
      else
        assert s[..k + 1] == [s[0]] + s[1..][..k];
        k + 1
  }

  /** How `buffer.slice` reads an index: a negative one counts from the end, then it is clamped to [0, len]. */
  function SliceIndex(k: int, len: nat): (r: nat)
    ensures r <= len
    ensures 0 <= k <= len ==> r == k
  {
    if k < 0 then (if len + k < 0 then 0 else len + k)
    else if k > len then len
    else k
  }

  /** `buffer.slice(start, end)`: empty when the normalised end does not lie after the normalised start. */
  function Slice(s: seq<Byte>, start: int, end: int): seq<Byte>
  {
    var a := SliceIndex(start, |s|);
    var b := SliceIndex(end, |s|);
    if a < b then s[a..b] else []
  }

  /** `buffer.toString('ascii')`: every byte becomes the character of its low seven bits. */
  function AsciiDecode(bytes: seq<Byte>): (s: string)
    ensures |s| == |bytes|
    ensures forall k :: 0 <= k < |bytes| ==> s[k] as int == bytes[k] % 128
  {
    seq(|bytes|, k requires 0 <= k < |bytes| => (bytes[k] % 128) as char)
  }

  /** The byte that `buffer.write(s, offset, length, 'ascii')` stores for one character: its code's low eight bits. */
  function CharByte(c: char): Byte
  {
    (c as int) % 256
  }

  function AsciiEncode(s: string): (bytes: seq<Byte>)
    ensures |bytes| == |s|
    ensures forall k :: 0 <= k < |s| ==> bytes[k] == CharByte(s[k])
  {
    seq(|s|, k requires 0 <= k < |s| => CharByte(s[k]))
  }

  predicate IsAscii(s: string)
  {
    forall k :: 0 <= k < |s| ==> (s[k] as int) < 128
  }

  lemma AsciiEncodeAppend(a: string, b: string)
    ensures AsciiEncode(a + b) == AsciiEncode(a) + AsciiEncode(b)
  {
    assert forall k :: 0 <= k < |a + b| ==> AsciiEncode(a + b)[k] == (AsciiEncode(a) + AsciiEncode(b))[k];
  }

  lemma AsciiDecodeAppend(a: seq<Byte>, b: seq<Byte>)
    ensures AsciiDecode(a + b) == AsciiDecode(a) + AsciiDecode(b)
  {
    assert forall k :: 0 <= k < |a + b| ==> AsciiDecode(a + b)[k] == (AsciiDecode(a) + AsciiDecode(b))[k];
  }

  /** Decoding what was written with the 'ascii' encoding gives back every 7-bit string. */
  lemma AsciiRoundTrip(s: string)
    requires IsAscii(s)
    ensures AsciiDecode(AsciiEncode(s)) == s
  {
    assert forall k :: 0 <= k < |s| ==> AsciiDecode(AsciiEncode(s))[k] == s[k];
  }

  // ---------------------------------------------------------------------------
  // Strings and arrays
  // ---------------------------------------------------------------------------

  /**
   * `s.split(sep)` for a one-character separator: the pieces between the
   * separators, in order; always at least one piece, none holding `sep`.
   */
  function Split(s: string, sep: char): (fields: seq<string>)
    ensures |fields| >= 1
    ensures forall k :: 0 <= k < |fields| ==> sep !in fields[k]
  {
    if s == [] then [""]
    else
      var rest := Split(s[1..], sep);
      if s[0] == sep then [""] + rest
      else [[s[0]] + rest[0]] + rest[1..]
  }

  lemma {:induction false} SplitWithoutSeparator(s: string, sep: char)
    requires sep !in s
    ensures Split(s, sep) == [s]
  {
    if s != [] {
      SplitWithoutSeparator(s[1..], sep);
      assert [s[0]] + s[1..] == s;
    }
  }

  /** Cutting a string at one separator splits its pieces into those before and those after it. */
  lemma {:induction false} SplitAtSeparator(a: string, b: string, sep: char)
    ensures Split(a + [sep] + b, sep) == Split(a, sep) + Split(b, sep)
  {
    var s := a + [sep] + b;
    if a == [] {
      assert s[0] == sep && s[1..] == b;
    } else {
      SplitAtSeparator(a[1..], b, sep);
      assert s[0] == a[0] && s[1..] == a[1..] + [sep] + b;
    }
  }

  /** Every character of every piece comes from the string that was split. */
  lemma {:induction false} SplitFieldChars(s: string, sep: char)
    ensures forall k, c :: 0 <= k < |Split(s, sep)| && c in Split(s, sep)[k] ==> c in s
  {
    if s != [] {
      SplitFieldChars(s[1..], sep);
      var rest := Split(s[1..], sep);
      assert forall c :: c in [s[0]] + rest[0] ==> c == s[0] || c in rest[0];
      assert forall c :: c in s[1..] ==> c in s;
    }
  }

  /** Appending a separator and a field without one adds that field to the pieces. */
  lemma SplitSnoc(a: string, f: string, sep: char)
    requires sep !in f
    ensures Split(a + [sep] + f, sep) == Split(a, sep) + [f]
  {
    SplitAtSeparator(a, f, sep);
    SplitWithoutSeparator(f, sep);
  }

  /** A run of `n` separators splits into `n + 1` empty pieces. */
  lemma {:induction false} SplitSeparators(n: nat, sep: char)
    ensures Split(seq(n, _ => sep), sep) == seq(n + 1, _ => "")
  {
    if n > 0 {
      var run := seq(n, _ => sep);
      SplitSeparators(n - 1, sep);
      assert run[0] == sep && run[1..] == seq(n - 1, _ => sep);
      assert [""] + seq(n, _ => "") == seq(n + 1, _ => "");
    }
  }

  /** `fields.join(sep)` for a one-character separator. */
  function Join(fields: seq<string>, sep: char): string
    requires |fields| >= 1
  {
    if |fields| == 1 then fields[0] else fields[0] + [sep] + Join(fields[1..], sep)
  }

  /** Splitting what was joined gives back the fields, when none holds the separator. */
  lemma {:induction false} SplitJoin(fields: seq<string>, sep: char)
    requires |fields| >= 1
    requires forall k :: 0 <= k < |fields| ==> sep !in fields[k]
    ensures Split(Join(fields, sep), sep) == fields
  {
    SplitWithoutSeparator(fields[0], sep);
    if |fields| > 1 {
      SplitJoin(fields[1..], sep);
      SplitAtSeparator(fields[0], Join(fields[1..], sep), sep);
      assert [fields[0]] + fields[1..] == fields;
    }
  }

  /** `parts.join('')`. */
  function Concat(parts: seq<string>): string
  {
    if parts == [] then "" else parts[0] + Concat(parts[1..])
  }

  lemma {:induction false} ConcatAppend(a: seq<string>, b: seq<string>)
    ensures Concat(a + b) == Concat(a) + Concat(b)
  {
    if a == [] {
      assert a + b == b;
    } else {
      var ab := a + b;
      assert ab[0] == a[0];
      assert ab[1..] == a[1..] + b;
      ConcatAppend(a[1..], b);
    }
  }

  /** `xs.reverse()`. */
  function Reverse<T>(xs: seq<T>): (r: seq<T>)
    ensures |r| == |xs|
    ensures forall k :: 0 <= k < |xs| ==> r[k] == xs[|xs| - 1 - k]
  {
    if xs == [] then [] else Reverse(xs[1..]) + [xs[0]]
  }

  /** `s.includes(sub)`. */
  predicate Contains(s: string, sub: string)
    decreases |s|
  {
    sub <= s || (s != [] && Contains(s[1..], sub))
  }

  /** Every string includes each of its infixes. */
  lemma {:induction false} ContainsInfix(before: string, sub: string, after: string)
    ensures Contains(before + sub + after, sub)
    decreases |before|
  {
    var s := before + sub + after;
    if before == [] {
      assert s == sub + after;
      assert sub <= s;
    } else {
      ContainsInfix(before[1..], sub, after);
      assert s[1..] == before[1..] + sub + after;
    }
  }

  /** A string that includes `sub` holds every character of `sub`. */
  lemma {:induction false} ContainsChar(s: string, sub: string, c: char)
    requires Contains(s, sub) && c in sub
    ensures c in s
    decreases |s|
  {
    if sub <= s {
      var k :| 0 <= k < |sub| && sub[k] == c;
      assert s[k] == c;
    } else {
      ContainsChar(s[1..], sub, c);
      var k :| 0 <= k < |s[1..]| && s[1..][k] == c;
      assert s[k + 1] == c;
    }
  }

  /** A string that includes `sub` is at least as long as `sub`. */
  lemma {:induction false} ContainsLength(s: string, sub: string)
    requires Contains(s, sub)
    ensures |sub| <= |s|
    decreases |s|
  {
    if !(sub <= s) {
      ContainsLength(s[1..], sub);
    }
  }

  // ---------------------------------------------------------------------------
  // Numbers as text
  // ---------------------------------------------------------------------------

  /** The lower-case digit for a value below 16. */
  function DigitChar(d: nat): (c: char)
    requires d < 16
    ensures DigitValue(c) == d
  {
    if d < 10 then ('0' as int + d) as char else ('a' as int + d - 10) as char
  }

  /** The value of a digit character in any radix up to 16 (either case), or 16 for anything else. */
  function DigitValue(c: char): (v: nat)
    ensures v <= 16
  {
    if '0' <= c <= '9' then c as int - '0' as int
    else if 'a' <= c <= 'f' then c as int - 'a' as int + 10
    else if 'A' <= c <= 'F' then c as int - 'A' as int + 10
    else 16
  }

  predicate AllDigits(s: string, radix: nat)
  {
    forall k :: 0 <= k < |s| ==> DigitValue(s[k]) < radix
  }

  /**
   * `n.toString(radix)` for a non-negative integer `n`: its digits in lower
   * case, most significant first, with no leading zero.
   */
  function NumberToString(n: nat, radix: nat): (s: string)
    requires 2 <= radix <= 16
    ensures |s| >= 1 && AllDigits(s, radix)
    ensures s[0] == '0' ==> n == 0
    decreases n
  {
    if n < radix then [DigitChar(n)]
    else
      DivideByRadix(n, radix);
      NumberToString(n / radix, radix) + [DigitChar(n % radix)]
  }

  lemma DivideByRadix(n: nat, radix: nat)
    requires 2 <= radix <= n
    ensures 1 <= n / radix < n && n % radix < radix
    ensures (n / radix) * radix + n % radix == n
  {
    var q, d := n / radix, n % radix;
    assert n == q * radix + d;
    assert 0 <= d < radix;
    assert q >= 0;
    assert q * radix > 0;
    assert q > 0 by { if q == 0 { assert false; } }
    assert q * radix >= q * 2;
  }

  /** The inverse of `NumberToString`: a non-empty string of digits read in the given radix. */
  function ParseNumber(s: string, radix: nat): Option<nat>
    requires 2 <= radix <= 16
  {
    if s == [] || !AllDigits(s, radix) then None else Some(DigitsValue(s, radix))
  }

  function DigitsValue(s: string, radix: nat): nat
    requires 2 <= radix <= 16 && AllDigits(s, radix)
  {
    if s == [] then 0
    else DigitsValue(s[..|s| - 1], radix) * radix + DigitValue(s[|s| - 1])
  }

  /** Printing a number and reading it back in the same radix gives the number. */
  lemma {:induction false} NumberToStringRoundTrip(n: nat, radix: nat)
    requires 2 <= radix <= 16
    ensures ParseNumber(NumberToString(n, radix), radix) == Some(n)
    decreases n
  {
    var s := NumberToString(n, radix);
    if n >= radix {
      var q, d := n / radix, n % radix;
      DivideByRadix(n, radix);
      NumberToStringRoundTrip(q, radix);
      assert s == NumberToString(q, radix) + [DigitChar(d)];
      var prefix := NumberToString(q, radix);
      assert s[..|s| - 1] == prefix;
      assert s[|s| - 1] == DigitChar(d);
      assert DigitsValue(prefix, radix) == q;
      assert DigitsValue(s, radix) == q * radix + d;
    } else {
      assert s == [DigitChar(n)];
      assert s[..|s| - 1] == [];
      assert DigitsValue(s, radix) == 0 * radix + DigitValue(s[0]);
    }
  }

  function Pow(b: nat, e: nat): nat
  {
    if e == 0 then 1 else b * Pow(b, e - 1)
  }

  /** A quotient by `d` stays below `p` when the dividend is below `p * d`. */
  lemma QuotientBelow(n: nat, d: nat, p: nat)
    requires 1 <= d && n < p * d
    ensures n / d < p
  {
    var q := n / d;
    assert q * d <= n;
    if q >= p {
      assert false;
    }
  }

  /** A number below radix^k needs at most k digits. */
  lemma {:induction false} NumberToStringLength(n: nat, radix: nat, k: nat)
    requires 2 <= radix <= 16 && 1 <= k && n < Pow(radix, k)
    ensures |NumberToString(n, radix)| <= k
    decreases n
  {
    if n >= radix {
      var p := Pow(radix, k - 1);
      assert Pow(radix, k) == radix * p;
      if k == 1 {
        assert false;
      } else {
        QuotientBelow(n, radix, p);
        NumberToStringLength(n / radix, radix, k - 1);
      }
    }
  }

  /** Only the digit values matter to `DigitsValue`. */
  lemma {:induction false} DigitsValueOfSameDigits(s: string, t: string, radix: nat)
    requires 2 <= radix <= 16 && |s| == |t| && AllDigits(s, radix)
    requires forall k :: 0 <= k < |s| ==> DigitValue(s[k]) == DigitValue(t[k])
    ensures AllDigits(t, radix) && DigitsValue(t, radix) == DigitsValue(s, radix)
  {
    if s != [] {
      DigitsValueOfSameDigits(s[..|s| - 1], t[..|t| - 1], radix);
    }
  }

  lemma {:induction false} ZerosValue(z: string, radix: nat)
    requires 2 <= radix <= 16
    requires forall k :: 0 <= k < |z| ==> z[k] == '0'
    ensures AllDigits(z, radix) && DigitsValue(z, radix) == 0
  {
    if z != [] {
      ZerosValue(z[..|z| - 1], radix);
    }
  }

  /** Leading zeros do not change the value of a digit string. */
  lemma {:induction false} LeadingZeros(z: string, s: string, radix: nat)
    requires 2 <= radix <= 16 && AllDigits(s, radix)
    requires forall k :: 0 <= k < |z| ==> z[k] == '0'
    ensures AllDigits(z + s, radix) && DigitsValue(z + s, radix) == DigitsValue(s, radix)
    decreases |s|
  {
    if s == [] {
      assert z + s == z;
      ZerosValue(z, radix);
    } else {
      var prefix := s[..|s| - 1];
      LeadingZeros(z, prefix, radix);
      assert (z + s)[..|z + s| - 1] == z + prefix;
    }
  }

  /** `s.toUpperCase()` on the ASCII letters (all that hexadecimal digits contain). */
  function UpperCase(s: string): (r: string)
    ensures |r| == |s|
    ensures forall k :: 0 <= k < |s| ==> !('a' <= r[k] <= 'z') && DigitValue(r[k]) == DigitValue(s[k])
  {
    seq(|s|, k requires 0 <= k < |s| => if 'a' <= s[k] <= 'z' then (s[k] as int - 32) as char else s[k])
  }

  /** `s.padStart(width, fill)`. */
  function PadStart(s: string, width: nat, fill: char): (r: string)
    ensures |r| == if |s| >= width then |s| else width
    ensures r[|r| - |s|..] == s
    ensures forall k :: 0 <= k < |r| - |s| ==> r[k] == fill
  {
    if |s| >= width then s else seq(width - |s|, _ => fill) + s
  }

  /** Padding a digit string with '0' keeps its value. */
  lemma PadStartValue(s: string, width: nat, radix: nat)
    requires 2 <= radix <= 16 && AllDigits(s, radix)
    ensures AllDigits(PadStart(s, width, '0'), radix)
    ensures DigitsValue(PadStart(s, width, '0'), radix) == DigitsValue(s, radix)
  {
    var r := PadStart(s, width, '0');
    var z := r[..|r| - |s|];
    assert r == z + s;
    LeadingZeros(z, s, radix);
  }
}
