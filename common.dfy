/**
 * Values and JavaScript string operations shared by the modules of this model:
 * an optional value (`T | null | undefined`), `String.prototype.split` on one
 * character, `Array.prototype.filter(Boolean)` on strings, `String.prototype.trim`,
 * `String.prototype.includes`, `toUpperCase` on ASCII letters and
 * `encodeURIComponent`.
 */
module Common {

  /** A value that may be absent (`null` or `undefined` in the source). */
  datatype Option<+T> = None | Some(value: T) {
    /** `x ?? default` */
    function GetOr(default: T): T {
      match this
      case Some(v) => v
      case None => default
    }
  }

  /** An optional string is truthy in JavaScript: present and not empty. */
  predicate Truthy(s: Option<string>) {
    s.Some? && s.value != ""
  }

  // ---------------------------------------------------------------------------
  // split / join / filter(Boolean)

  /** `s.split(sep)` for a one-character separator: n separators give n + 1 parts. */
  function Split(s: string, sep: char): (parts: seq<string>)
    ensures |parts| >= 1
    decreases |s|
  {
    if s == [] then [""]
    else
      var rest := Split(s[1..], sep);
      if s[0] == sep then [""] + rest
      else [[s[0]] + rest[0]] + rest[1..]
  }

  /** `parts.join(sep)` for a one-character separator: it starts with the first
      part. */
  function Join(parts: seq<string>, sep: char): (s: string)
    requires |parts| >= 1
    ensures |parts[0]| <= |s| && s[..|parts[0]|] == parts[0]
    decreases |parts|
  {
    if |parts| == 1 then parts[0] else parts[0] + [sep] + Join(parts[1..], sep)
  }

  /** `parts.join("")` */
  function Concat(parts: seq<string>): string
    decreases |parts|
  {
    if parts == [] then "" else parts[0] + Concat(parts[1..])
  }

  /** `parts.filter(Boolean)`: the empty string is the only falsy string. */
  function NonEmpty(parts: seq<string>): (r: seq<string>)
    ensures forall i :: 0 <= i < |r| ==> r[i] != ""
    ensures forall p :: p in r <==> p in parts && p != ""
    ensures |r| <= |parts|
    decreases |parts|
  {
    if parts == [] then []
    else if parts[0] == "" then NonEmpty(parts[1..])
    else [parts[0]] + NonEmpty(parts[1..])
  }

  /** `s.split(" ").filter(Boolean)`: the space-separated words of `s`, each
      non-empty and without a space. */
  function Words(s: string): (ws: seq<string>)
    ensures forall i :: 0 <= i < |ws| ==> ws[i] != "" && ' ' !in ws[i]
  {
    SplitPartsLackSeparator(s, ' ');
    assert forall w :: w in Split(s, ' ') ==> ' ' !in w;
    NonEmpty(Split(s, ' '))
  }

  /** `s` with every occurrence of `c` deleted (a reference definition for the lemmas). */
  function Without(s: string, c: char): string
    decreases |s|
  {
    if s == [] then "" else (if s[0] == c then "" else [s[0]]) + Without(s[1..], c)
  }

  /** Splitting and re-joining on the same separator gives the string back. */
  lemma {:induction false} JoinSplit(s: string, sep: char)
    ensures Join(Split(s, sep), sep) == s
    decreases |s|
  {
    if s != [] {
      var rest := Split(s[1..], sep);
      JoinSplit(s[1..], sep);
      assert s == [s[0]] + s[1..];
      if s[0] == sep {
        SplitConsSep(s[1..], sep);
        JoinEmptyHead(rest, sep);
      } else {
        SplitConsOther(s[0], s[1..], sep);
        JoinConsHead(s[0], rest, sep);
      }
    }
  }

  /** Joining after an empty first part starts with the separator. */
  lemma JoinEmptyHead(parts: seq<string>, sep: char)
    requires |parts| >= 1
    ensures Join([""] + parts, sep) == [sep] + Join(parts, sep)
  {
    assert ([""] + parts)[1..] == parts;
  }

  /** Joining after a character is put in front of the first part. */
  lemma JoinConsHead(c: char, parts: seq<string>, sep: char)
    requires |parts| >= 1
    ensures Join([[c] + parts[0]] + parts[1..], sep) == [c] + Join(parts, sep)
  {
    var q := [[c] + parts[0]] + parts[1..];
    if |parts| > 1 {
      assert q[1..] == parts[1..];
      var j := Join(parts[1..], sep);
      assert [c] + parts[0] + [sep] + j == [c] + (parts[0] + [sep] + j);
    }
  }

  /** No part of a split contains the separator. */
  lemma {:induction false} SplitPartsLackSeparator(s: string, sep: char)
    ensures forall i :: 0 <= i < |Split(s, sep)| ==> sep !in Split(s, sep)[i]
    decreases |s|
  {
    if s != [] {
      SplitPartsLackSeparator(s[1..], sep);
      var rest := Split(s[1..], sep);
      if s[0] != sep {
        var parts := [[s[0]] + rest[0]] + rest[1..];
        forall i | 0 <= i < |parts| ensures sep !in parts[i] {
          if i > 0 { assert parts[i] == rest[i]; }
        }
      } else {
        var parts := [""] + rest;
        forall i | 0 <= i < |parts| ensures sep !in parts[i] {
          if i > 0 { assert parts[i] == rest[i - 1]; }
        }
      }
    }
  }

  /** The parts of a split, glued together, are the string without its separators. */
  lemma {:induction false} ConcatSplit(s: string, sep: char)
    ensures Concat(Split(s, sep)) == Without(s, sep)
    decreases |s|
  {
    if s != [] {
      ConcatSplit(s[1..], sep);
      var rest := Split(s[1..], sep);
      if s[0] == sep {
        assert ([""] + rest)[1..] == rest;
      } else {
        var parts := [[s[0]] + rest[0]] + rest[1..];
        assert parts[1..] == rest[1..];
        assert Concat(rest) == rest[0] + Concat(rest[1..]);
      }
    }
  }

  /** Dropping empty parts does not change their concatenation. */
  lemma {:induction false} ConcatNonEmpty(parts: seq<string>)
    ensures Concat(NonEmpty(parts)) == Concat(parts)
    decreases |parts|
  {
    if parts != [] {
      ConcatNonEmpty(parts[1..]);
      if parts[0] != "" {
        assert ([parts[0]] + NonEmpty(parts[1..]))[1..] == NonEmpty(parts[1..]);
      }
    }
  }

  lemma {:induction false} WithoutEmpty(s: string, c: char)
    ensures Without(s, c) == "" <==> forall i :: 0 <= i < |s| ==> s[i] == c
    decreases |s|
  {
    if s != [] {
      WithoutEmpty(s[1..], c);
      assert forall i :: 1 <= i < |s| ==> s[i] == s[1..][i - 1];
    }
  }

  /** A string has no words exactly when it consists of spaces only. */
  lemma WordsEmpty(s: string)
    ensures Words(s) == [] <==> forall i :: 0 <= i < |s| ==> s[i] == ' '
  {
    ConcatSplit(s, ' ');
    ConcatNonEmpty(Split(s, ' '));
    WithoutEmpty(s, ' ');
    var ws := Words(s);
    if ws != [] {
      assert Concat(ws) == ws[0] + Concat(ws[1..]);
      assert |Concat(ws)| > 0;
    }
  }

  /** A string without spaces that is not empty is one word. */
  lemma {:induction false} SplitNoSeparator(w: string, sep: char)
    requires sep !in w
    ensures Split(w, sep) == [w]
    decreases |w|
  {
    if w != [] {
      assert sep !in w[1..];
      SplitNoSeparator(w[1..], sep);
      assert w == [w[0]] + w[1..];
    }
  }

  /** One step of `Split` through a leading separator. */
  lemma SplitConsSep(t: string, sep: char)
    ensures Split([sep] + t, sep) == [""] + Split(t, sep)
  {
    assert ([sep] + t)[0] == sep && ([sep] + t)[1..] == t;
  }

  /** One step of `Split` through a leading non-separator. */
  lemma SplitConsOther(c: char, t: string, sep: char)
    requires c != sep
    ensures Split([c] + t, sep) == [[c] + Split(t, sep)[0]] + Split(t, sep)[1..]
  {
    assert ([c] + t)[0] == c && ([c] + t)[1..] == t;
  }

  /** One step of `SplitAround` through a leading separator. */
  lemma SplitStepSep(c: char, t: string, u: string, sep: char, ry: seq<string>)
    requires c == sep
    requires Split(t, sep) == Split(u, sep) + ry
    ensures Split([c] + t, sep) == Split([c] + u, sep) + ry
  {
    SplitConsSep(t, sep);
    SplitConsSep(u, sep);
    ConsAssoc("", Split(u, sep), ry);
  }

  /** One step of `SplitAround` through a leading non-separator. */
  lemma SplitStepOther(c: char, t: string, u: string, sep: char, ry: seq<string>)
    requires c != sep
    requires Split(t, sep) == Split(u, sep) + ry
    ensures Split([c] + t, sep) == Split([c] + u, sep) + ry
  {
    SplitConsOther(c, t, sep);
    SplitConsOther(c, u, sep);
    var rx := Split(u, sep);
    var head := [c] + rx[0];
    assert (rx + ry)[0] == rx[0];
    DropAppend(rx, ry, 1);
    ConsAssoc(head, rx[1..], ry);
  }

  /** Splitting maps two strings joined by the separator to the concatenation of
      their parts. */
  lemma {:induction false} SplitAround(x: string, sep: char, y: string)
    ensures Split(x + [sep] + y, sep) == Split(x, sep) + Split(y, sep)
    decreases |x|
  {
    if x == [] {
      assert x + [sep] + y == [sep] + y;
      SplitConsSep(y, sep);
    } else {
      SplitAround(x[1..], sep, y);
      var t := x[1..] + [sep] + y;
      assert x + [sep] + y == [x[0]] + t;
      assert x == [x[0]] + x[1..];
      if x[0] == sep {
        SplitStepSep(x[0], t, x[1..], sep, Split(y, sep));
      } else {
        SplitStepOther(x[0], t, x[1..], sep, Split(y, sep));
      }
    }
  }

  /** Joining parts that lack the separator and splitting again gives the parts
      back: with `JoinSplit`, `Split` and `Join` are inverse to each other. */
  lemma {:induction false} SplitJoin(parts: seq<string>, sep: char)
    requires |parts| >= 1
    requires forall i :: 0 <= i < |parts| ==> sep !in parts[i]
    ensures Split(Join(parts, sep), sep) == parts
    decreases |parts|
  {
    SplitNoSeparator(parts[0], sep);
    if |parts| > 1 {
      assert forall i :: 0 <= i < |parts[1..]| ==> parts[1..][i] == parts[i + 1];
      SplitJoin(parts[1..], sep);
      SplitAround(parts[0], sep, Join(parts[1..], sep));
      assert parts == [parts[0]] + parts[1..];
    }
  }

  lemma {:induction false} NonEmptyAppend(a: seq<string>, b: seq<string>)
    ensures NonEmpty(a + b) == NonEmpty(a) + NonEmpty(b)
    decreases |a|
  {
    if a == [] {
      assert a + b == b;
    } else {
      NonEmptyAppend(a[1..], b);
      assert (a + b)[1..] == a[1..] + b;
    }
  }

  /** The words of `x + " " + y` are the words of `x` followed by those of `y`. */
  lemma WordsAround(x: string, y: string)
    ensures Words(x + " " + y) == Words(x) + Words(y)
  {
    SplitAround(x, ' ', y);
    NonEmptyAppend(Split(x, ' '), Split(y, ' '));
  }

  /** A non-empty string without spaces is a single word. */
  lemma SingleWord(w: string)
    requires w != "" && ' ' !in w
    ensures Words(w) == [w]
  {
    SplitNoSeparator(w, ' ');
  }

  // ---------------------------------------------------------------------------
  // trim

  /** The characters that `String.prototype.trim` removes: the ECMAScript
      WhiteSpace and LineTerminator code points. */
  predicate IsJsWhitespace(c: char) {
    var n := c as int;
    n == 0x09 || n == 0x0A || n == 0x0B || n == 0x0C || n == 0x0D || n == 0x20
    || n == 0xA0 || n == 0x1680 || (0x2000 <= n <= 0x200A) || n == 0x2028 || n == 0x2029
    || n == 0x202F || n == 0x205F || n == 0x3000 || n == 0xFEFF
  }

  predicate AllWhitespace(s: string) {
    forall i :: 0 <= i < |s| ==> IsJsWhitespace(s[i])
  }

  /** `s.trimStart()`: a suffix of `s` that does not start with whitespace, and
      what it cuts off is all whitespace. */
  function TrimStart(s: string): (r: string)
    ensures r == [] || !IsJsWhitespace(r[0])
    ensures |r| <= |s| && r == s[|s| - |r|..]
    ensures AllWhitespace(s[..|s| - |r|])
    decreases |s|
  {
    if s != [] && IsJsWhitespace(s[0]) then
      var r := TrimStart(s[1..]);
      assert s[..|s| - |r|] == [s[0]] + s[1..][..|s[1..]| - |r|];
      r
    else s
  }

  /** `s.trimEnd()`: a prefix of `s` that does not end with whitespace, and what
      it cuts off is all whitespace. */
  function TrimEnd(s: string): (r: string)
    ensures r == [] || !IsJsWhitespace(r[|r| - 1])
    ensures |r| <= |s| && r == s[..|r|]
    ensures AllWhitespace(s[|r|..])
    decreases |s|
  {
    if s != [] && IsJsWhitespace(s[|s| - 1]) then
      var r := TrimEnd(s[..|s| - 1]);
      assert s[|r|..] == s[..|s| - 1][|r|..] + [s[|s| - 1]];
      r
    else s
  }

  /** `s.trim()`: `trimStart` then `trimEnd`, so that the result neither starts
      nor ends with whitespace; it is empty exactly when `s` is all whitespace. */
  function Trim(s: string): (r: string)
    ensures r == [] || (!IsJsWhitespace(r[0]) && !IsJsWhitespace(r[|r| - 1]))
    ensures r == [] <==> AllWhitespace(s)
  {
    var t := TrimStart(s);
    var r := TrimEnd(t);
    assert r != [] ==> r[0] == t[0];
    assert r == [] ==> s == s[..|s| - |t|] + t;
    r
  }

  /** What `trim` leaves is a slice of `s`, and what it cuts off on either side is
      whitespace. */
  lemma TrimIsSlice(s: string)
    ensures var r := Trim(s);
      exists i :: 0 <= i <= i + |r| <= |s| && r == s[i..i + |r|] && AllWhitespace(s[..i]) && AllWhitespace(s[i + |r|..])
  {
    TrimSteps(s);
    SliceBetween(s, TrimStart(s), Trim(s));
  }

  /** `trim` is `trimEnd` after `trimStart`, each cutting only whitespace. */
  lemma TrimSteps(s: string)
    ensures var t := TrimStart(s);
      && |t| <= |s| && t == s[|s| - |t|..] && AllWhitespace(s[..|s| - |t|])
      && |Trim(s)| <= |t| && Trim(s) == t[..|Trim(s)|] && AllWhitespace(t[|Trim(s)|..])
  {
    assert Trim(s) == TrimEnd(TrimStart(s));
  }

  /** A whitespace-free cut at the front of `s` followed by one at the back of the
      rest leaves a slice of `s` with only whitespace on either side. */
  lemma SliceBetween(s: string, t: string, r: string)
    requires |t| <= |s| && t == s[|s| - |t|..] && AllWhitespace(s[..|s| - |t|])
    requires |r| <= |t| && r == t[..|r|] && AllWhitespace(t[|r|..])
    ensures exists i :: 0 <= i <= i + |r| <= |s| && r == s[i..i + |r|] && AllWhitespace(s[..i]) && AllWhitespace(s[i + |r|..])
  {
    var i := |s| - |t|;
    assert r == s[i..i + |r|];
    assert s[i + |r|..] == t[|r|..];
  }

  /** `trimStart` skips a leading whitespace character. */
  lemma TrimStartCons(c: char, t: string)
    requires IsJsWhitespace(c)
    ensures TrimStart([c] + t) == TrimStart(t)
  {
    assert ([c] + t)[1..] == t;
  }

  /** `trimEnd` skips a trailing whitespace character. */
  lemma TrimEndSnoc(t: string, c: char)
    requires IsJsWhitespace(c)
    ensures TrimEnd(t + [c]) == TrimEnd(t)
  {
    assert (t + [c])[..|t|] == t;
  }

  /** `trimStart` cuts off exactly a whitespace prefix before a non-whitespace character. */
  lemma {:induction false} TrimStartAfter(lead: string, x: string)
    requires AllWhitespace(lead)
    requires x != [] && !IsJsWhitespace(x[0])
    ensures TrimStart(lead + x) == x
    decreases |lead|
  {
    if lead == [] {
      assert lead + x == x;
    } else {
      assert lead + x == [lead[0]] + (lead[1..] + x);
      TrimStartAfter(lead[1..], x);
      TrimStartCons(lead[0], lead[1..] + x);
    }
  }

  /** `trimEnd` cuts off exactly a whitespace suffix after a non-whitespace character. */
  lemma {:induction false} TrimEndBefore(x: string, trail: string)
    requires AllWhitespace(trail)
    requires x != [] && !IsJsWhitespace(x[|x| - 1])
    ensures TrimEnd(x + trail) == x
    decreases |trail|
  {
    if trail == [] {
      assert x + trail == x;
    } else {
      var t := trail[..|trail| - 1];
      assert x + trail == (x + t) + [trail[|trail| - 1]];
      TrimEndBefore(x, t);
      TrimEndSnoc(x + t, trail[|trail| - 1]);
    }
  }

  /** Trimming cuts off exactly the whitespace around a middle part that starts and
      ends with non-whitespace. */
  lemma TrimAround(lead: string, m: string, trail: string)
    requires AllWhitespace(lead) && AllWhitespace(trail)
    requires m != [] && !IsJsWhitespace(m[0]) && !IsJsWhitespace(m[|m| - 1])
    ensures Trim(lead + m + trail) == m
  {
    assert lead + m + trail == lead + (m + trail);
    TrimStartAfter(lead, m + trail);
    TrimEndBefore(m, trail);
  }

  // ---------------------------------------------------------------------------
  // includes, toUpperCase

  /** `sub` occurs in `s` starting at index `i`. */
  predicate OccursAt(s: string, sub: string, i: int) {
    0 <= i <= |s| - |sub| && s[i..i + |sub|] == sub
  }

  /** The occurrences in a non-empty string: a prefix, or one in the tail moved by one. */
  lemma OccursCons(s: string, sub: string)
    requires s != []
    ensures (exists i :: OccursAt(s, sub, i)) <==>
      (|sub| <= |s| && s[..|sub|] == sub) || (exists j :: OccursAt(s[1..], sub, j))
  {
    if exists i :: OccursAt(s, sub, i) {
      var i :| OccursAt(s, sub, i);
      if i > 0 {
        assert s[1..][i - 1..i - 1 + |sub|] == s[i..i + |sub|];
        assert OccursAt(s[1..], sub, i - 1);
      }
    }
    if exists j :: OccursAt(s[1..], sub, j) {
      var j :| OccursAt(s[1..], sub, j);
      assert s[1..][j..j + |sub|] == s[j + 1..j + 1 + |sub|];
      assert OccursAt(s, sub, j + 1);
    }
    if |sub| <= |s| && s[..|sub|] == sub {
      assert OccursAt(s, sub, 0);
    }
  }

  /** `s.includes(sub)`: `sub` occurs in `s` at some position. */
  predicate Includes(s: string, sub: string): (b: bool)
    ensures b <==> exists i :: OccursAt(s, sub, i)
    decreases |s|
  {
    if |sub| <= |s| && s[..|sub|] == sub then
      assert OccursAt(s, sub, 0);
      true
    else if s == [] then
      false
    else
      OccursCons(s, sub);
      Includes(s[1..], sub)
  }

  /** `toUpperCase` on one character, for the ASCII letters only: exactly the
      lower-case letters change, each to the upper-case letter at the same place
      in the alphabet. */
  function UpperChar(c: char): (u: char)
    ensures !('a' <= u <= 'z')
    ensures u != c <==> 'a' <= c <= 'z'
    ensures u != c ==> 'A' <= u <= 'Z' && u as int - 'A' as int == c as int - 'a' as int
  {
    if 'a' <= c <= 'z' then (c as int - 32) as char else c
  }

  /** `s.toUpperCase()`, character by character (ASCII letters only): no
      lower-case ASCII letter is left. */
  function Upper(s: string): (r: string)
    ensures |r| == |s|
    ensures forall i :: 0 <= i < |s| ==> r[i] == UpperChar(s[i]) && !('a' <= r[i] <= 'z')
    decreases |s|
  {
    if s == [] then "" else [UpperChar(s[0])] + Upper(s[1..])
  }

  // ---------------------------------------------------------------------------
  // encodeURIComponent

  /** The characters `encodeURIComponent` leaves as they are. */
  predicate IsUnreserved(c: char) {
    ('A' <= c <= 'Z') || ('a' <= c <= 'z') || ('0' <= c <= '9')
    || c == '-' || c == '_' || c == '.' || c == '!' || c == '~' || c == '*'
    || c == '\'' || c == '(' || c == ')'
  }

  predicate IsUriSafe(c: char) {
    IsUnreserved(c) || c == '%'
  }

  /** The hex digits `encodeURIComponent` writes: ASCII digits and upper-case A-F. */
  predicate IsUpperHex(c: char) {
    ('0' <= c <= '9') || ('A' <= c <= 'F')
  }

  function HexValue(c: char): (n: nat)
    requires IsUpperHex(c)
    ensures n < 16
  {
    if c <= '9' then c as int - 48 else c as int - 55
  }

  function HexDigit(n: nat): (c: char)
    requires n < 16
    ensures IsUnreserved(c) && IsUpperHex(c) && HexValue(c) == n
  {
    if n < 10 then (48 + n) as char else (55 + n) as char
  }

  /** One unit of an encoded component: a character left as it is, or one octet
      written as a `%XY` escape. */
  datatype UriUnit = Plain(c: char) | Octet(b: nat)

  /** A well-formed encoding: unreserved characters and `%XY` escapes with two
      upper-case hex digits, and nothing else. */
  predicate Escaped(r: string)
    decreases |r|
  {
    r == []
    || (IsUnreserved(r[0]) && Escaped(r[1..]))
    || (|r| >= 3 && r[0] == '%' && IsUpperHex(r[1]) && IsUpperHex(r[2]) && Escaped(r[3..]))
  }

  /** Reading a well-formed encoding back into its units. */
  function DecodeUnits(r: string): seq<UriUnit>
    requires Escaped(r)
    decreases |r|
  {
    if r == [] then []
    else if r[0] != '%' then [Plain(r[0])] + DecodeUnits(r[1..])
    else [Octet(HexValue(r[1]) * 16 + HexValue(r[2]))] + DecodeUnits(r[3..])
  }

  /** Well-formed encodings concatenate. */
  lemma {:induction false} EscapedConcat(a: string, b: string)
    requires Escaped(a) && Escaped(b)
    ensures Escaped(a + b)
    decreases |a|, 1
  {
    if a == [] {
      assert a + b == b;
    } else if IsUnreserved(a[0]) && Escaped(a[1..]) {
      EscapedConcatPlain(a, b);
    } else {
      EscapedConcatEscape(a, b);
    }
  }

  lemma {:induction false} EscapedConcatPlain(a: string, b: string)
    requires a != [] && IsUnreserved(a[0]) && Escaped(a[1..]) && Escaped(b)
    ensures Escaped(a + b)
    decreases |a|, 0
  {
    EscapedConcat(a[1..], b);
    assert a + b == [a[0]] + (a[1..] + b);
    EscapedPlainCons(a[0], a[1..] + b);
  }

  lemma {:induction false} EscapedConcatEscape(a: string, b: string)
    requires |a| >= 3 && a[0] == '%' && IsUpperHex(a[1]) && IsUpperHex(a[2]) && Escaped(a[3..]) && Escaped(b)
    ensures Escaped(a + b)
    decreases |a|, 0
  {
    EscapedConcat(a[3..], b);
    assert a + b == a[..3] + (a[3..] + b);
    EscapedEscapeCons(a[..3], a[3..] + b);
  }

  lemma EscapedPlainCons(c: char, t: string)
    requires IsUnreserved(c) && Escaped(t)
    ensures Escaped([c] + t)
  {
    assert ([c] + t)[1..] == t;
  }

  lemma EscapedEscapeCons(e: string, t: string)
    requires |e| == 3 && e[0] == '%' && IsUpperHex(e[1]) && IsUpperHex(e[2]) && Escaped(t)
    ensures Escaped(e + t)
  {
    assert (e + t)[3..] == t;
  }

  /** The first unit of an encoding that starts with an unreserved character. */
  lemma DecodePlain(r: string)
    requires Escaped(r) && r != [] && r[0] != '%'
    ensures Escaped(r[1..]) && DecodeUnits(r) == [Plain(r[0])] + DecodeUnits(r[1..])
  {
  }

  /** The first unit of an encoding that starts with an escape. */
  lemma DecodeEscape(r: string)
    requires Escaped(r) && r != [] && r[0] == '%'
    ensures |r| >= 3 && IsUpperHex(r[1]) && IsUpperHex(r[2]) && Escaped(r[3..])
    ensures DecodeUnits(r) == [Octet(HexValue(r[1]) * 16 + HexValue(r[2]))] + DecodeUnits(r[3..])
  {
  }

  /** The units of a concatenation of encodings are the concatenated units. */
  lemma {:induction false} EscapedAppend(a: string, b: string)
    requires Escaped(a) && Escaped(b)
    ensures Escaped(a + b) && DecodeUnits(a + b) == DecodeUnits(a) + DecodeUnits(b)
    decreases |a|
  {
    EscapedConcat(a, b);
    if a == [] {
      assert a + b == b && DecodeUnits(a) == [];
    } else if a[0] != '%' {
      EscapedAppendPlain(a, b);
    } else {
      EscapedAppendEscape(a, b);
    }
  }

  lemma {:induction false} EscapedAppendPlain(a: string, b: string)
    requires Escaped(a) && Escaped(b) && a != [] && a[0] != '%'
    ensures Escaped(a + b) && DecodeUnits(a + b) == DecodeUnits(a) + DecodeUnits(b)
    decreases |a|, 0
  {
    PlainHead(a, b);
    EscapedAppend(a[1..], b);
    ConsAssoc(Plain(a[0]), DecodeUnits(a[1..]), DecodeUnits(b));
  }

  lemma {:induction false} EscapedAppendEscape(a: string, b: string)
    requires Escaped(a) && Escaped(b) && a != [] && a[0] == '%'
    ensures Escaped(a + b) && DecodeUnits(a + b) == DecodeUnits(a) + DecodeUnits(b)
    decreases |a|, 0
  {
    EscapeHead(a, b);
    EscapedAppend(a[3..], b);
    ConsAssoc(Octet(HexValue(a[1]) * 16 + HexValue(a[2])), DecodeUnits(a[3..]), DecodeUnits(b));
  }

  /** The first unit of `a + b` when `a` starts with an unreserved character. */
  lemma PlainHead(a: string, b: string)
    requires Escaped(a) && Escaped(b) && a != [] && a[0] != '%'
    ensures Escaped(a[1..]) && Escaped(a[1..] + b) && Escaped(a + b)
    ensures DecodeUnits(a) == [Plain(a[0])] + DecodeUnits(a[1..])
    ensures DecodeUnits(a + b) == [Plain(a[0])] + DecodeUnits(a[1..] + b)
  {
    EscapedConcat(a, b);
    DecodePlain(a);
    EscapedConcat(a[1..], b);
    var ab := a + b;
    DropAppend(a, b, 1);
    assert ab[0] == a[0];
    DecodePlain(ab);
  }

  /** The first unit of `a + b` when `a` starts with an escape. */
  lemma EscapeHead(a: string, b: string)
    requires Escaped(a) && Escaped(b) && a != [] && a[0] == '%'
    ensures |a| >= 3 && Escaped(a[3..]) && Escaped(a[3..] + b) && Escaped(a + b)
    ensures DecodeUnits(a) == [Octet(HexValue(a[1]) * 16 + HexValue(a[2]))] + DecodeUnits(a[3..])
    ensures DecodeUnits(a + b) == [Octet(HexValue(a[1]) * 16 + HexValue(a[2]))] + DecodeUnits(a[3..] + b)
  {
    EscapedConcat(a, b);
    DecodeEscape(a);
    EscapedConcat(a[3..], b);
    DecodeEscapeConcat(a, b);
  }

  /** Decoding `a + b` through an escape at the front of `a`. */
  lemma DecodeEscapeConcat(a: string, b: string)
    requires |a| >= 3 && a[0] == '%' && Escaped(a + b)
    ensures Escaped(a[3..] + b)
    ensures DecodeUnits(a + b) == [Octet(HexValue(a[1]) * 16 + HexValue(a[2]))] + DecodeUnits(a[3..] + b)
  {
    var ab := a + b;
    DropAppend(a, b, 3);
    assert ab[0] == '%' && ab[1] == a[1] && ab[2] == a[2];
    DecodeEscape(ab);
  }

  /** Dropping a prefix of `x` from `x + y`. */
  lemma DropAppend<T>(x: seq<T>, y: seq<T>, k: nat)
    requires k <= |x|
    ensures (x + y)[k..] == x[k..] + y
  {
  }

  lemma ConsAssoc<T>(u: T, x: seq<T>, y: seq<T>)
    ensures [u] + (x + y) == ([u] + x) + y
  {
  }

  function Octets(bytes: seq<nat>): (r: seq<UriUnit>)
    ensures |r| == |bytes| && forall i :: 0 <= i < |r| ==> r[i] == Octet(bytes[i])
    decreases |bytes|
  {
    if bytes == [] then [] else [Octet(bytes[0])] + Octets(bytes[1..])
  }

  /** `%XY` with upper-case hex digits: a well-formed escape that reads back as
      the octet `b`. */
  function PercentByte(b: nat): (r: string)
    requires b < 256
    ensures |r| == 3 && r[0] == '%'
    ensures Escaped(r) && DecodeUnits(r) == [Octet(b)]
  {
    var r := ['%', HexDigit(b / 16), HexDigit(b % 16)];
    assert r[3..] == [];
    r
  }

  /** The UTF-8 bytes of a Unicode scalar value. */
  function Utf8(c: char): (bytes: seq<nat>)
    ensures 1 <= |bytes| <= 4
    ensures forall i :: 0 <= i < |bytes| ==> bytes[i] < 256
  {
    var n := c as int;
    if n < 0x80 then [n]
    else if n < 0x800 then [0xC0 + n / 0x40, 0x80 + n % 0x40]
    else if n < 0x10000 then [0xE0 + n / 0x1000, 0x80 + (n / 0x40) % 0x40, 0x80 + n % 0x40]
    else [0xF0 + n / 0x40000, 0x80 + (n / 0x1000) % 0x40, 0x80 + (n / 0x40) % 0x40, 0x80 + n % 0x40]
  }

  /** The length of a UTF-8 sequence, read off its lead byte. */
  function Utf8Length(lead: nat): nat {
    if lead < 0x80 then 1 else if lead < 0xE0 then 2 else if lead < 0xF0 then 3 else 4
  }

  /** The scalar value a UTF-8 sequence of one to four bytes encodes. */
  function Utf8Decode(bytes: seq<nat>): int
    requires 1 <= |bytes| <= 4
  {
    if |bytes| == 1 then bytes[0]
    else if |bytes| == 2 then (bytes[0] as int - 0xC0) * 0x40 + (bytes[1] as int - 0x80)
    else if |bytes| == 3 then
      (bytes[0] as int - 0xE0) * 0x1000 + (bytes[1] as int - 0x80) * 0x40 + (bytes[2] as int - 0x80)
    else
      (bytes[0] as int - 0xF0) * 0x40000 + (bytes[1] as int - 0x80) * 0x1000
      + (bytes[2] as int - 0x80) * 0x40 + (bytes[3] as int - 0x80)
  }

  /** UTF-8 round trip: the lead byte gives the sequence's length, and decoding
      the sequence gives back the character. */
  lemma Utf8RoundTrip(c: char)
    ensures |Utf8(c)| == Utf8Length(Utf8(c)[0])
    ensures Utf8Decode(Utf8(c)) == c as int
  {
    var n := c as int;
    if n < 0x80 {
    } else if n < 0x800 {
      Utf8RoundTripTwo(c);
    } else if n < 0x10000 {
      Utf8RoundTripThree(c);
    } else {
      Utf8RoundTripFour(c);
    }
  }

  lemma Utf8RoundTripTwo(c: char)
    requires 0x80 <= c as int < 0x800
    ensures |Utf8(c)| == 2 && Utf8Length(Utf8(c)[0]) == 2
    ensures Utf8Decode(Utf8(c)) == c as int
  {
    var n := c as int;
    assert Utf8(c) == [0xC0 + n / 0x40, 0x80 + n % 0x40];
    assert n == (n / 0x40) * 0x40 + n % 0x40;
  }

  lemma Utf8RoundTripThree(c: char)
    requires 0x800 <= c as int < 0x10000
    ensures |Utf8(c)| == 3 && Utf8Length(Utf8(c)[0]) == 3
    ensures Utf8Decode(Utf8(c)) == c as int
  {
    var n := c as int;
    assert Utf8(c) == [0xE0 + n / 0x1000, 0x80 + (n / 0x40) % 0x40, 0x80 + n % 0x40];
    assert n / 0x40 == (n / 0x1000) * 0x40 + (n / 0x40) % 0x40;
    assert n == (n / 0x40) * 0x40 + n % 0x40;
  }

  lemma Utf8RoundTripFour(c: char)
    requires 0x10000 <= c as int
    ensures |Utf8(c)| == 4 && Utf8Length(Utf8(c)[0]) == 4
    ensures Utf8Decode(Utf8(c)) == c as int
  {
    var n := c as int;
    assert Utf8(c) == [0xF0 + n / 0x40000, 0x80 + (n / 0x1000) % 0x40, 0x80 + (n / 0x40) % 0x40, 0x80 + n % 0x40];
    assert n / 0x1000 == (n / 0x40000) * 0x40 + (n / 0x1000) % 0x40;
    assert n / 0x40 == (n / 0x1000) * 0x40 + (n / 0x40) % 0x40;
    assert n == (n / 0x40) * 0x40 + n % 0x40;
  }

  function PercentBytes(bytes: seq<nat>): (r: string)
    requires forall i :: 0 <= i < |bytes| ==> bytes[i] < 256
    ensures |r| == 3 * |bytes|
    ensures Escaped(r) && DecodeUnits(r) == Octets(bytes)
    decreases |bytes|
  {
    if bytes == [] then ""
    else
      var r := PercentByte(bytes[0]) + PercentBytes(bytes[1..]);
      EscapedAppend(PercentByte(bytes[0]), PercentBytes(bytes[1..]));
      r
  }

  /** The units `encodeURIComponent` should write for `s`: each unreserved
      character as it is, every other character as the octets of its UTF-8 form. */
  function Units(s: string): seq<UriUnit>
    decreases |s|
  {
    if s == [] then []
    else (if IsUnreserved(s[0]) then [Plain(s[0])] else Octets(Utf8(s[0]))) + Units(s[1..])
  }

  /** An unreserved character stands for itself. */
  lemma UnreservedEscaped(c: char)
    requires IsUnreserved(c)
    ensures Escaped([c]) && DecodeUnits([c]) == [Plain(c)]
  {
    assert [c][1..] == [];
  }

  /** The encoding of one character: itself when unreserved, otherwise the
      escapes of its UTF-8 octets. */
  function EncodeChar(c: char): (e: string)
    ensures |e| >= 1
    ensures Escaped(e)
    ensures DecodeUnits(e) == if IsUnreserved(c) then [Plain(c)] else Octets(Utf8(c))
  {
    if IsUnreserved(c) then
      UnreservedEscaped(c);
      [c]
    else PercentBytes(Utf8(c))
  }

  /** `encodeURIComponent(s)`: the result is a well-formed encoding (unreserved
      characters and `%XY` escapes only) that reads back as the units of `s`. */
  function EncodeUriComponent(s: string): (r: string)
    ensures Escaped(r) && DecodeUnits(r) == Units(s)
    ensures forall i :: 0 <= i < |r| ==> IsUriSafe(r[i])
    ensures |r| >= |s|
    decreases |s|
  {
    if s == [] then ""
    else
      var head := EncodeChar(s[0]);
      var r := head + EncodeUriComponent(s[1..]);
      EscapedAppend(head, EncodeUriComponent(s[1..]));
      EscapedSafe(r);
      r
  }

  /** Every character of a well-formed encoding is URI-safe. */
  lemma {:induction false} EscapedSafe(r: string)
    requires Escaped(r)
    ensures forall i :: 0 <= i < |r| ==> IsUriSafe(r[i])
    decreases |r|
  {
    if r != [] {
      if IsUnreserved(r[0]) {
        EscapedSafe(r[1..]);
        assert forall i :: 1 <= i < |r| ==> r[i] == r[1..][i - 1];
      } else {
        EscapedSafe(r[3..]);
        assert forall i :: 3 <= i < |r| ==> r[i] == r[3..][i - 3];
      }
    }
  }

  /** Equal unit sequences come from equal strings: the units of a character are
      told apart by their kind and, for octets, by the UTF-8 lead byte. */
  lemma {:induction false} UnitsInjective(s1: string, s2: string)
    requires Units(s1) == Units(s2)
    ensures s1 == s2
    decreases |s1|
  {
    if s1 == [] || s2 == [] {
    } else {
      var c1, c2 := s1[0], s2[0];
      var h1 := if IsUnreserved(c1) then [Plain(c1)] else Octets(Utf8(c1));
      var h2 := if IsUnreserved(c2) then [Plain(c2)] else Octets(Utf8(c2));
      var u := Units(s1);
      assert u == h1 + Units(s1[1..]) && u == h2 + Units(s2[1..]);
      assert u[0] == h1[0] && u[0] == h2[0];
      if !IsUnreserved(c1) {
        Utf8RoundTrip(c1);
        Utf8RoundTrip(c2);
        assert Utf8(c1)[0] == Utf8(c2)[0];
        assert |h1| == |h2|;
        assert h1 == u[..|h1|] == h2;
        assert Utf8(c1) == Utf8(c2) by {
          assert forall i :: 0 <= i < |h1| ==> h1[i] == Octet(Utf8(c1)[i]) && h2[i] == Octet(Utf8(c2)[i]);
        }
      }
      assert c1 == c2;
      assert Units(s1[1..]) == u[|h1|..] == Units(s2[1..]);
      UnitsInjective(s1[1..], s2[1..]);
      assert s1 == [c1] + s1[1..] && s2 == [c2] + s2[1..];
    }
  }

  /** `encodeURIComponent` loses nothing: different strings never encode alike. */
  lemma EncodeInjective(s1: string, s2: string)
    requires EncodeUriComponent(s1) == EncodeUriComponent(s2)
    ensures s1 == s2
  {
    UnitsInjective(s1, s2);
  }

  /** A string of unreserved characters is its own encoding. */
  lemma {:induction false} EncodeUnreserved(s: string)
    requires forall i :: 0 <= i < |s| ==> IsUnreserved(s[i])
    ensures EncodeUriComponent(s) == s
    decreases |s|
  {
    if s != [] {
      EncodeUnreserved(s[1..]);
      assert s == [s[0]] + s[1..];
    }
  }
}
