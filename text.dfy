/**
 * The JavaScript string operations the gallery screen relies on, for a
 * one-character pattern: `split`, `join`, `replace` with a string pattern
 * (first occurrence only) and `toUpperCase` on a single character.
 */
module Text {

  /** Number of occurrences of `c` in `s`. */
  function Count(s: string, c: char): (n: nat)
    ensures n <= |s|
    ensures n == 0 <==> c !in s
  {
    if |s| == 0 then 0
    else (if s[0] == c then 1 else 0) + Count(s[1..], c)
  }

  /**
   * `s.split(sep)`: the pieces of `s` between occurrences of `sep`.
   * There is always at least one piece, one more than there are separators,
   * and no piece holds the separator.
   */
  function Split(s: string, sep: char): (parts: seq<string>)
    ensures |parts| == Count(s, sep) + 1
    ensures forall p :: p in parts ==> sep !in p
    decreases |s|
  {
    if |s| == 0 then [""]
    else if s[0] == sep then [""] + Split(s[1..], sep)
    else
      var rest := Split(s[1..], sep);
      [[s[0]] + rest[0]] + rest[1..]
  }

  /**
   * `parts.join(sep)`: the pieces with one separator between neighbours, so
   * that separator-free pieces give exactly `|parts| - 1` separators.
   */
  function Join(parts: seq<string>, sep: char): (s: string)
    ensures |parts| >= 1 && Separated(parts, sep) ==> Count(s, sep) == |parts| - 1
  {
    if |parts| == 0 then ""
    else if |parts| == 1 then parts[0]
    else
      var rest := Join(parts[1..], sep);
      assert Separated(parts, sep) ==> sep !in parts[0] && Separated(parts[1..], sep) by {
        assert parts[0] in parts;
        assert forall p :: p in parts[1..] ==> p in parts;
      }
      CountConcat(parts[0], [sep], sep);
      CountConcat(parts[0] + [sep], rest, sep);
      parts[0] + [sep] + rest
  }

  /** Occurrences in a concatenation add up. */
  lemma {:induction false} CountConcat(a: string, b: string, c: char)
    ensures Count(a + b, c) == Count(a, c) + Count(b, c)
    decreases |a|
  {
    if |a| > 0 {
      assert (a + b)[0] == a[0] && (a + b)[1..] == a[1..] + b;
      CountConcat(a[1..], b, c);
    } else {
      assert a + b == b;
    }
  }

  /** True when no piece holds the separator, so that splitting undoes joining. */
  predicate Separated(parts: seq<string>, sep: char)
  {
    forall p :: p in parts ==> sep !in p
  }

  /** Joining the pieces of a split gives back the original string. */
  lemma {:induction false} JoinSplit(s: string, sep: char)
    ensures Join(Split(s, sep), sep) == s
    decreases |s|
  {
    if |s| > 0 {
      var rest := Split(s[1..], sep);
      JoinSplit(s[1..], sep);
      if s[0] == sep {
        assert Split(s, sep) == [""] + rest;
        assert ([""] + rest)[1..] == rest;
      } else if |rest| > 1 {
        var parts := [[s[0]] + rest[0]] + rest[1..];
        assert parts[1..] == rest[1..];
        assert Join(rest, sep) == rest[0] + [sep] + Join(rest[1..], sep);
        assert s == [s[0]] + s[1..];
      } else {
        assert s == [s[0]] + s[1..];
      }
    }
  }

  /** A string without the separator splits into itself alone. */
  lemma {:induction false} SplitUnseparated(w: string, sep: char)
    requires sep !in w
    ensures Split(w, sep) == [w]
    decreases |w|
  {
    if |w| > 0 {
      assert sep !in w[1..];
      SplitUnseparated(w[1..], sep);
      assert [w[0]] + w[1..] == w;
    }
  }

  /** The first piece of `w + [sep] + rest` is `w` when `w` has no separator. */
  lemma {:induction false} SplitAfterFirst(w: string, rest: string, sep: char)
    requires sep !in w
    ensures Split(w + [sep] + rest, sep) == [w] + Split(rest, sep)
    decreases |w|
  {
    var s := w + [sep] + rest;
    if |w| == 0 {
      assert s[0] == sep && s[1..] == rest;
    } else {
      assert s[0] == w[0] && s[1..] == w[1..] + [sep] + rest;
      assert sep !in w[1..];
      SplitAfterFirst(w[1..], rest, sep);
      assert [w[0]] + w[1..] == w;
    }
  }

  /** Splitting undoes joining, provided no piece holds the separator. */
  lemma {:induction false} SplitJoin(parts: seq<string>, sep: char)
    requires |parts| >= 1 && Separated(parts, sep)
    ensures Split(Join(parts, sep), sep) == parts
    decreases |parts|
  {
    if |parts| == 1 {
      assert parts[0] in parts;
      SplitUnseparated(parts[0], sep);
    } else {
      assert parts[0] in parts;
      assert Separated(parts[1..], sep) by {
        forall p | p in parts[1..] ensures sep !in p {
          assert p in parts;
        }
      }
      SplitJoin(parts[1..], sep);
      SplitAfterFirst(parts[0], Join(parts[1..], sep), sep);
      assert [parts[0]] + parts[1..] == parts;
    }
  }

  /** Joining `[w] + rest` puts `w` and one separator in front of the rest. */
  lemma JoinCons(w: string, rest: seq<string>, sep: char)
    requires |rest| >= 1
    ensures Join([w] + rest, sep) == w + [sep] + Join(rest, sep)
  {
    assert ([w] + rest)[1..] == rest;
  }

  /** The index of the first occurrence of `c` in `s` (`s.indexOf(c)`). */
  function IndexOf(s: string, c: char): (i: nat)
    requires c in s
    ensures i < |s| && s[i] == c
    ensures c !in s[..i]
  {
    if s[0] == c then 0
    else
      assert c in s[1..] by { assert s == [s[0]] + s[1..]; }
      var j := IndexOf(s[1..], c);
      assert s[..j + 1] == [s[0]] + s[1..][..j];
      j + 1
  }

  /**
   * `s.replace(pattern, replacement)` with a one-character string pattern:
   * JavaScript replaces only the first occurrence.
   */
  function ReplaceFirst(s: string, pattern: char, replacement: char): (r: string)
    ensures |r| == |s|
    ensures pattern !in s ==> r == s
  {
    if |s| == 0 then ""
    else if s[0] == pattern then [replacement] + s[1..]
    else
      assert pattern !in s ==> pattern !in s[1..];
      assert s == [s[0]] + s[1..];
      [s[0]] + ReplaceFirst(s[1..], pattern, replacement)
  }

  /** The replacement lands at the first occurrence and nowhere else. */
  lemma {:induction false} ReplaceFirstAt(s: string, pattern: char, replacement: char)
    requires pattern in s
    ensures var i := IndexOf(s, pattern);
            ReplaceFirst(s, pattern, replacement) == s[..i] + [replacement] + s[i + 1..]
    decreases |s|
  {
    if s[0] != pattern {
      assert s == [s[0]] + s[1..];
      assert pattern in s[1..];
      ReplaceFirstAt(s[1..], pattern, replacement);
      var j := IndexOf(s[1..], pattern);
      assert IndexOf(s, pattern) == j + 1;
      assert s[..j + 1] == [s[0]] + s[1..][..j];
      assert s[j + 2..] == s[1..][j + 1..];
    }
  }

  /** When `w` holds no `pattern`, the occurrence right after it is the one replaced. */
  lemma {:induction false} ReplaceFirstAfter(w: string, rest: string, pattern: char, replacement: char)
    requires pattern !in w
    ensures ReplaceFirst(w + [pattern] + rest, pattern, replacement) == w + [replacement] + rest
    decreases |w|
  {
    var s := w + [pattern] + rest;
    if |w| == 0 {
      assert s[0] == pattern && s[1..] == rest;
    } else {
      assert s[0] == w[0] && s[1..] == w[1..] + [pattern] + rest;
      assert pattern !in w[1..];
      ReplaceFirstAfter(w[1..], rest, pattern, replacement);
      assert [w[0]] + w[1..] == w;
    }
  }

  /**
   * Replacing the first occurrence by a different character removes exactly
   * one occurrence when there is one, and none otherwise.
   */
  lemma {:induction false} ReplaceFirstCount(s: string, pattern: char, replacement: char)
    requires replacement != pattern
    ensures Count(ReplaceFirst(s, pattern, replacement), pattern)
            == if pattern in s then Count(s, pattern) - 1 else Count(s, pattern)
    decreases |s|
  {
    if |s| > 0 {
      var r := ReplaceFirst(s, pattern, replacement);
      assert s == [s[0]] + s[1..];
      if s[0] == pattern {
        assert r[0] == replacement && r[1..] == s[1..];
      } else {
        ReplaceFirstCount(s[1..], pattern, replacement);
        assert r[0] == s[0] && r[1..] == ReplaceFirst(s[1..], pattern, replacement);
      }
    }
  }

  /** Two equally long strings that hold `c` at the same places hold it equally often. */
  lemma {:induction false} CountSamePlaces(a: string, b: string, c: char)
    requires |a| == |b|
    requires forall i :: 0 <= i < |a| ==> (a[i] == c <==> b[i] == c)
    ensures Count(a, c) == Count(b, c)
    decreases |a|
  {
    if |a| > 0 {
      assert forall i :: 0 <= i < |a| - 1 ==> a[1..][i] == a[i + 1] && b[1..][i] == b[i + 1];
      CountSamePlaces(a[1..], b[1..], c);
    }
  }

  /** `toUpperCase` on one character, for the ASCII letters `a` to `z`. */
  function UpperAscii(c: char): (u: char)
    ensures 'a' <= c <= 'z' ==> 'A' <= u <= 'Z' && u as int == c as int - 32
    ensures !('a' <= c <= 'z') ==> u == c
  {
    if 'a' <= c <= 'z' then (c as int - 'a' as int + 'A' as int) as char else c
  }

  /** Upper-casing twice is upper-casing once. */
  lemma UpperAsciiIdempotent(c: char)
    ensures UpperAscii(UpperAscii(c)) == UpperAscii(c)
  {
  }

  /** Upper-casing produces a character that is not a letter only from that same character. */
  lemma UpperAsciiFixes(c: char, d: char)
    requires !('a' <= d <= 'z') && !('A' <= d <= 'Z')
    ensures UpperAscii(c) == d <==> c == d
  {
  }
}
