/** String operations of the JavaScript runtime that the modelled code relies
    on: the `\s` character class, `toLowerCase`, `replace(/\s+/g, '-')`,
    `Array.prototype.join` and the UTF-16 `length` of a string. */
module Text {

  /** JavaScript's `\s`: the ECMAScript WhiteSpace and LineTerminator code
      points (tab, line feed, vertical tab, form feed, carriage return, space,
      no-break space, the Unicode space separators, the line and paragraph
      separators and the byte-order mark). */
  predicate IsSpace(c: char) {
    var n := c as int;
    || n == 0x09 || n == 0x0A || n == 0x0B || n == 0x0C || n == 0x0D
    || n == 0x20 || n == 0xA0 || n == 0x1680
    || (0x2000 <= n <= 0x200A)
    || n == 0x2028 || n == 0x2029 || n == 0x202F || n == 0x205F
    || n == 0x3000 || n == 0xFEFF
  }

  predicate NoSpace(s: string) {
    forall i :: 0 <= i < |s| ==> !IsSpace(s[i])
  }

  predicate IsUpper(c: char) {
    'A' <= c <= 'Z'
  }

  predicate NoUpper(s: string) {
    forall i :: 0 <= i < |s| ==> !IsUpper(s[i])
  }

  /** `toLowerCase` on one character, for the ASCII letters. */
  function LowerChar(c: char): (r: char)
    ensures !IsUpper(r)
    ensures IsUpper(c) ==> r as int == c as int + 32
    ensures !IsUpper(c) ==> r == c
    ensures IsSpace(r) <==> IsSpace(c)
  {
    if IsUpper(c) then (c as int - 'A' as int + 'a' as int) as char else c
  }

  /** `toLowerCase` on a string: character by character, length preserved. */
  function Lower(s: string): (r: string)
    ensures |r| == |s|
    ensures NoUpper(r)
    ensures forall i :: 0 <= i < |s| ==> r[i] == LowerChar(s[i])
  {
    seq(|s|, i requires 0 <= i < |s| => LowerChar(s[i]))
  }

  /** Lower-casing an already lower-case string changes nothing. */
  lemma LowerFixesNoUpper(s: string)
    requires NoUpper(s)
    ensures Lower(s) == s
  {
  }

  /** Lower-casing neither adds nor removes whitespace. */
  lemma LowerKeepsNoSpace(s: string)
    requires NoSpace(s)
    ensures NoSpace(Lower(s))
  {
  }

  /** The suffix of `s` left after its leading whitespace run. */
  function DropLeadingSpace(s: string): (r: string)
    ensures |r| <= |s| && r == s[|s| - |r|..]
    ensures r == [] || !IsSpace(r[0])
    ensures forall i :: 0 <= i < |s| - |r| ==> IsSpace(s[i])
  {
    if s != [] && IsSpace(s[0]) then DropLeadingSpace(s[1..]) else s
  }

  /** `s.replace(/\s+/g, '-')`: every maximal run of whitespace becomes one
      hyphen; every other character is kept in place. */
  function CollapseSpace(s: string): (r: string)
    ensures NoSpace(r)
    ensures |r| <= |s|
    ensures NoSpace(s) ==> r == s
    decreases |s|
  {
    if s == [] then []
    else
      var rest := if IsSpace(s[0]) then DropLeadingSpace(s[1..]) else s[1..];
      var head := if IsSpace(s[0]) then '-' else s[0];
      var t := CollapseSpace(rest);
      assert NoSpace(s) ==> NoSpace(s[1..]) && rest == s[1..];
      [head] + t
  }

  /** A string made of whitespace only. */
  predicate AllSpace(w: string) {
    forall i :: 0 <= i < |w| ==> IsSpace(w[i])
  }

  /** Dropping the leading whitespace of a whitespace run followed by other
      text leaves that text. */
  lemma {:induction false} DropRun(w: string, rest: string)
    requires AllSpace(w)
    requires rest == [] || !IsSpace(rest[0])
    ensures DropLeadingSpace(w + rest) == rest
    decreases |w|
  {
    if w == [] {
      assert w + rest == rest;
    } else {
      assert (w + rest)[0] == w[0];
      assert (w + rest)[1..] == w[1..] + rest;
      DropRun(w[1..], rest);
    }
  }

  /** A character that is not whitespace is kept in place. */
  lemma CollapseKeep(c: char, s: string)
    requires !IsSpace(c)
    ensures CollapseSpace([c] + s) == [c] + CollapseSpace(s)
  {
    assert ([c] + s)[1..] == s;
  }

  /** A leading whitespace run becomes one hyphen. */
  lemma CollapseLeadingRun(w: string, b: string)
    requires |w| > 0 && AllSpace(w)
    requires b == [] || !IsSpace(b[0])
    ensures CollapseSpace(w + b) == "-" + CollapseSpace(b)
  {
    assert (w + b)[0] == w[0];
    assert (w + b)[1..] == w[1..] + b;
    DropRun(w[1..], b);
  }

  /** Text without whitespace in front of any suffix is copied through. */
  lemma {:induction false} CollapseKeepPrefix(a: string, s: string)
    requires NoSpace(a)
    ensures CollapseSpace(a + s) == a + CollapseSpace(s)
    decreases |a|
  {
    if a == [] {
      assert a + s == s;
    } else {
      var tail := a[1..] + s;
      calc {
        CollapseSpace(a + s);
        { assert a + s == [a[0]] + tail; }
        CollapseSpace([a[0]] + tail);
        { CollapseKeep(a[0], tail); }
        [a[0]] + CollapseSpace(tail);
        { CollapseKeepPrefix(a[1..], s); }
        [a[0]] + (a[1..] + CollapseSpace(s));
        { assert a == [a[0]] + a[1..]; }
        a + CollapseSpace(s);
      }
    }
  }

  /** A whitespace run of any length, after text without whitespace,
      becomes exactly one hyphen; what follows the run is processed on its
      own. */
  lemma CollapseRun(a: string, w: string, b: string)
    requires NoSpace(a)
    requires |w| > 0 && AllSpace(w)
    requires b == [] || !IsSpace(b[0])
    ensures CollapseSpace(a + w + b) == a + "-" + CollapseSpace(b)
  {
    calc {
      CollapseSpace(a + w + b);
      { assert a + w + b == a + (w + b); }
      CollapseSpace(a + (w + b));
      { CollapseKeepPrefix(a, w + b); }
      a + CollapseSpace(w + b);
      { CollapseLeadingRun(w, b); }
      a + ("-" + CollapseSpace(b));
      a + "-" + CollapseSpace(b);
    }
  }

  /** Reference definition: every whitespace character, on its own, becomes
      a hyphen. */
  function HyphenateEach(s: string): (r: string)
    ensures |r| == |s|
    ensures forall i :: 0 <= i < |s| ==> r[i] == (if IsSpace(s[i]) then '-' else s[i])
  {
    seq(|s|, i requires 0 <= i < |s| => if IsSpace(s[i]) then '-' else s[i])
  }

  /** No two whitespace characters stand next to each other. */
  predicate NoDoubleSpace(s: string) {
    forall i :: 0 <= i < |s| - 1 ==> !(IsSpace(s[i]) && IsSpace(s[i + 1]))
  }

  /** Where every whitespace run has length one, collapsing runs is the same
      as replacing each whitespace character by a hyphen. */
  lemma {:induction false} CollapseSingleSpaces(s: string)
    requires NoDoubleSpace(s)
    ensures CollapseSpace(s) == HyphenateEach(s)
    decreases |s|
  {
    if s == [] {
    } else {
      var t := s[1..];
      assert NoDoubleSpace(t) by {
        forall i | 0 <= i < |t| - 1
          ensures !(IsSpace(t[i]) && IsSpace(t[i + 1]))
        {
          assert t[i] == s[i + 1] && t[i + 1] == s[i + 2];
        }
      }
      if IsSpace(s[0]) {
        assert t == [] || !IsSpace(t[0]);
        assert DropLeadingSpace(t) == t;
      }
      assert CollapseSpace(s) == [HyphenateEach(s)[0]] + CollapseSpace(t);
      CollapseSingleSpaces(t);
      assert HyphenateEach(s) == [HyphenateEach(s)[0]] + HyphenateEach(t);
    }
  }

  /** The identifier normalisation `replace(/\s+/g, '-').toLowerCase()`. */
  function Normalize(s: string): (r: string)
    ensures NoSpace(r) && NoUpper(r)
    ensures |r| <= |s|
  {
    var c := CollapseSpace(s);
    LowerKeepsNoSpace(c);
    Lower(c)
  }

  /** Normalising a normalised string changes nothing. */
  lemma NormalizeIdempotent(s: string)
    ensures Normalize(Normalize(s)) == Normalize(s)
  {
    var n := Normalize(s);
    assert CollapseSpace(n) == n;
    LowerFixesNoUpper(n);
  }

  /** `Array.prototype.join(sep)` on an array of strings: no separator before
      the first element or after the last. */
  function Join(ss: seq<string>, sep: string): (r: string)
    ensures |ss| == 0 ==> r == ""
    ensures |ss| == 1 ==> r == ss[0]
    ensures |ss| >= 1 ==> ss[0] <= r
  {
    if |ss| == 0 then ""
    else if |ss| == 1 then ss[0]
    else ss[0] + sep + Join(ss[1..], sep)
  }

  /** Appending one more element to a non-empty list appends the separator
      and that element: the joined pieces appear in list order. */
  lemma {:induction false} JoinSnoc(ss: seq<string>, x: string, sep: string)
    requires |ss| >= 1
    ensures Join(ss + [x], sep) == Join(ss, sep) + sep + x
    decreases |ss|
  {
    if |ss| == 1 {
      assert ss + [x] == [ss[0], x];
      assert (ss + [x])[1..] == [x];
    } else {
      assert (ss + [x])[1..] == ss[1..] + [x];
      JoinSnoc(ss[1..], x, sep);
    }
  }

  function SumLengths(ss: seq<string>): nat {
    if ss == [] then 0 else |ss[0]| + SumLengths(ss[1..])
  }

  /** The joined string holds every element and exactly one separator
      between each neighbouring pair. */
  lemma {:induction false} JoinLength(ss: seq<string>, sep: string)
    requires |ss| >= 1
    ensures |Join(ss, sep)| == SumLengths(ss) + (|ss| - 1) * |sep|
    decreases |ss|
  {
    if |ss| > 1 {
      JoinLength(ss[1..], sep);
    }
  }

  /** `String.prototype.length`: the number of UTF-16 code units, so a code
      point outside the Basic Multilingual Plane counts twice. */
  function Utf16Length(s: string): (n: nat)
    ensures |s| <= n <= 2 * |s|
  {
    if s == [] then 0
    else (if s[0] as int >= 0x10000 then 2 else 1) + Utf16Length(s[1..])
  }

  /** The UTF-16 length of a concatenation is the sum of the lengths. */
  lemma {:induction false} Utf16LengthAppend(a: string, b: string)
    ensures Utf16Length(a + b) == Utf16Length(a) + Utf16Length(b)
    decreases |a|
  {
    if a == [] {
      assert a + b == b;
    } else {
      assert (a + b)[1..] == a[1..] + b;
      Utf16LengthAppend(a[1..], b);
    }
  }
}
