/**
 * The PHP string built-ins the router relies on, over `string` (one `char`
 * per byte of the PHP string): `trim($s, '/')`, `substr($s, 0, $n)`,
 * `strtoupper`, `str_contains`, `str_replace` with a single search string,
 * and `strval` of an integer.
 */
module PhpStrings {

  /** Every character of `s` is a slash. */
  predicate AllSlashes(s: string) {
    forall i :: 0 <= i < |s| ==> s[i] == '/'
  }

  /** Neither end of `s` is a slash (true of the empty string). */
  predicate SlashFreeEnds(s: string) {
    s == [] || (s[0] != '/' && s[|s| - 1] != '/')
  }

  /** `trim($s, '/')`: `s` without its leading and trailing slashes. */
  function TrimSlashes(s: string): (r: string)
    ensures |r| <= |s|
    decreases |s|
  {
    if s != [] && s[0] == '/' then TrimSlashes(s[1..])
    else if s != [] && s[|s| - 1] == '/' then TrimSlashes(s[..|s| - 1])
    else s
  }

  /** The result of `trim` neither starts nor ends with a slash. */
  lemma {:induction false} TrimSlashFree(s: string)
    ensures SlashFreeEnds(TrimSlashes(s))
    decreases |s|
  {
    if s != [] && s[0] == '/' {
      TrimSlashFree(s[1..]);
    } else if s != [] && s[|s| - 1] == '/' {
      TrimSlashFree(s[..|s| - 1]);
    }
  }

  /** `trim` splits its input into leading slashes, the result and trailing slashes. */
  lemma {:induction false} TrimSplits(s: string) returns (i: nat, j: nat)
    ensures i <= j <= |s| && AllSlashes(s[..i]) && AllSlashes(s[j..])
    ensures TrimSlashes(s) == s[i..j]
    decreases |s|
  {
    if s != [] && s[0] == '/' {
      var t := s[1..];
      var i', j' := TrimSplits(t);
      i, j := i' + 1, j' + 1;
      assert s[..i] == [s[0]] + t[..i'];
      assert s[j..] == t[j'..];
      assert s[i..j] == t[i'..j'];
    } else if s != [] && s[|s| - 1] == '/' {
      var t := s[..|s| - 1];
      i, j := TrimSplits(t);
      assert s[..i] == t[..i];
      assert s[j..] == t[j..] + [s[|s| - 1]];
      assert s[i..j] == t[i..j];
    } else {
      i, j := 0, |s|;
      assert s[0..|s|] == s;
    }
  }

  /**
   * `trim` is characterised uniquely: cutting slash runs `a` and `b` off
   * both ends of a text `r` that neither starts nor ends with a slash gives
   * back exactly `r`.
   */
  lemma {:induction false} TrimUnique(a: string, r: string, b: string)
    requires AllSlashes(a) && AllSlashes(b) && SlashFreeEnds(r)
    ensures TrimSlashes(a + r + b) == r
    decreases |a| + |b|
  {
    var s := a + r + b;
    if a != [] {
      assert s[0] == a[0];
      assert s[1..] == a[1..] + r + b;
      TrimUnique(a[1..], r, b);
    } else if b != [] {
      assert s == r + b;
      assert s[|s| - 1] == b[|b| - 1];
      if r == [] {
        assert s[0] == b[0];
        assert s[1..] == [] + [] + b[1..];
        TrimUnique([], [], b[1..]);
      } else {
        assert s[0] == r[0];
        assert s[..|s| - 1] == [] + r + b[..|b| - 1];
        TrimUnique([], r, b[..|b| - 1]);
      }
    } else {
      assert s == r;
    }
  }

  /** Trimming twice is trimming once. */
  lemma TrimIdempotent(s: string)
    ensures TrimSlashes(TrimSlashes(s)) == TrimSlashes(s)
  {
    var r := TrimSlashes(s);
    TrimSlashFree(s);
    assert [] + r + [] == r;
    TrimUnique([], r, []);
  }

  /**
   * `substr($s, 0, $length)` of PHP 8: a length at or beyond `|s|` keeps the
   * whole text, a negative length drops that many characters from the end,
   * and a negative length larger than `|s|` gives the empty string.
   */
  function Substr0(s: string, length: int): (r: string)
    ensures |r| <= |s|
    ensures length >= |s| ==> r == s
    ensures 0 <= length <= |s| ==> |r| == length
    ensures length < 0 ==> |r| == if |s| + length < 0 then 0 else |s| + length
  {
    if length >= 0 then
      (if length >= |s| then s else s[..length])
    else if |s| + length < 0 then []
    else s[..|s| + length]
  }

  /** The result of `substr($s, 0, $length)` is a prefix of `s`. */
  lemma Substr0Prefix(s: string, length: int)
    ensures Substr0(s, length) == s[..|Substr0(s, length)|]
  {
  }

  /** `strtoupper` on one character; PHP 8 upper-cases only ASCII letters. */
  function UpperChar(c: char): (u: char)
    ensures 'a' <= c <= 'z' ==> 'A' <= u <= 'Z' && u as int == c as int - 32
    ensures !('a' <= c <= 'z') ==> u == c
  {
    if 'a' <= c <= 'z' then (c as int - 32) as char else c
  }

  /** `strtoupper($s)`. */
  function Upper(s: string): (r: string)
    ensures |r| == |s|
    ensures forall i :: 0 <= i < |s| ==> r[i] == UpperChar(s[i])
  {
    if s == [] then [] else [UpperChar(s[0])] + Upper(s[1..])
  }

  /** Upper-casing an upper-cased string changes nothing. */
  lemma UpperIdempotent(s: string)
    ensures Upper(Upper(s)) == Upper(s)
  {
    var u := Upper(s);
    assert forall i :: 0 <= i < |u| ==> Upper(u)[i] == u[i];
  }

  /** `needle` occurs in `hay` at position `i`. */
  predicate OccursAt(hay: string, needle: string, i: int) {
    0 <= i && i + |needle| <= |hay| && hay[i..i + |needle|] == needle
  }

  /** `str_contains($hay, $needle)`, by a left-to-right scan. */
  function Contains(hay: string, needle: string): (r: bool)
    ensures r <==> exists i :: OccursAt(hay, needle, i)
    decreases |hay|
  {
    if |needle| > |hay| then false
    else if hay[..|needle|] == needle then
      assert OccursAt(hay, needle, 0);
      true
    else
      var r := Contains(hay[1..], needle);
      assert r ==> exists i :: OccursAt(hay, needle, i) by {
        if r {
          var i :| OccursAt(hay[1..], needle, i);
          assert hay[i + 1..i + 1 + |needle|] == hay[1..][i..i + |needle|];
          assert OccursAt(hay, needle, i + 1);
        }
      }
      assert (exists i :: OccursAt(hay, needle, i)) ==> r by {
        if exists i :: OccursAt(hay, needle, i) {
          var i :| OccursAt(hay, needle, i);
          assert i != 0;
          assert hay[1..][i - 1..i - 1 + |needle|] == hay[i..i + |needle|];
          assert OccursAt(hay[1..], needle, i - 1);
        }
      }
      r
  }

  /** A text occurs in any text it is part of. */
  lemma ContainsInfix(a: string, needle: string, b: string)
    ensures Contains(a + needle + b, needle)
  {
    assert (a + needle + b)[|a|..|a| + |needle|] == needle;
    assert OccursAt(a + needle + b, needle, |a|);
  }

  /**
   * `str_replace($search, $replace, $s)` for one search string: every
   * occurrence, found left to right without overlap, is replaced; an empty
   * search string leaves `s` as it is.
   */
  function ReplaceAll(s: string, search: string, replace: string): (r: string)
    ensures replace == search ==> r == s
    decreases |s|
  {
    if |search| == 0 || |s| < |search| then s
    else if s[..|search|] == search then
      assert s == s[..|search|] + s[|search|..];
      replace + ReplaceAll(s[|search|..], search, replace)
    else [s[0]] + ReplaceAll(s[1..], search, replace)
  }

  /** Replacing a text that does not occur changes nothing. */
  lemma {:induction false} ReplaceAllAbsent(s: string, search: string, replace: string)
    requires !Contains(s, search)
    ensures ReplaceAll(s, search, replace) == s
    decreases |s|
  {
    if |search| > 0 && |s| >= |search| {
      assert !OccursAt(s, search, 0);
      ReplaceAllAbsent(s[1..], search, replace);
    }
  }

  /**
   * The result differs from `s` exactly when the search text occurs in `s`
   * and is replaced by something else.
   */
  lemma {:induction false} ReplaceAllUnchangedIff(s: string, search: string, replace: string)
    requires |search| > 0
    ensures ReplaceAll(s, search, replace) == s <==> (!Contains(s, search) || search == replace)
    decreases |s|
  {
    if !Contains(s, search) {
      ReplaceAllAbsent(s, search, replace);
    } else if |s| >= |search| {
      if s[..|search|] == search {
        ReplaceAllUnchangedIff(s[|search|..], search, replace);
        if search == replace {
          assert s == search + s[|search|..];
        } else if |replace| == |search| {
          var r := ReplaceAll(s, search, replace);
          assert r[..|search|] == replace;
        } else {
          ReplaceAllLength(s[|search|..], search, replace);
          var r := ReplaceAll(s, search, replace);
          if |replace| < |search| {
            assert |r| < |s|;
          } else {
            assert |r| > |s|;
          }
        }
      } else {
        ReplaceAllUnchangedIff(s[1..], search, replace);
        assert s == [s[0]] + s[1..];
      }
    }
  }

  /** A same-length replacement keeps the length; a shorter one never grows it, a longer one never shrinks it. */
  lemma {:induction false} ReplaceAllLength(s: string, search: string, replace: string)
    requires |search| > 0
    ensures |replace| == |search| ==> |ReplaceAll(s, search, replace)| == |s|
    ensures |replace| < |search| ==> |ReplaceAll(s, search, replace)| <= |s|
    ensures |replace| > |search| ==> |ReplaceAll(s, search, replace)| >= |s|
    decreases |s|
  {
    if |s| >= |search| {
      if s[..|search|] == search {
        ReplaceAllLength(s[|search|..], search, replace);
      } else {
        ReplaceAllLength(s[1..], search, replace);
      }
    }
  }

  /**
   * A prefix that cannot start an occurrence (it lacks the search text's
   * first character) passes through unchanged.
   */
  lemma {:induction false} ReplaceAllSkip(x: string, y: string, search: string, replace: string)
    requires |search| > 0
    requires forall i :: 0 <= i < |x| ==> x[i] != search[0]
    ensures ReplaceAll(x + y, search, replace) == x + ReplaceAll(y, search, replace)
    decreases |x|
  {
    if x != [] {
      assert (x + y)[1..] == x[1..] + y;
      ReplaceAllSkip(x[1..], y, search, replace);
      if |x + y| >= |search| {
        assert (x + y)[..|search|][0] == x[0];
        assert (x + y)[..|search|] != search;
        calc {
          ReplaceAll(x + y, search, replace);
          [x[0]] + ReplaceAll(x[1..] + y, search, replace);
          [x[0]] + (x[1..] + ReplaceAll(y, search, replace));
          { assert x == [x[0]] + x[1..]; }
          x + ReplaceAll(y, search, replace);
        }
      } else {
        ReplaceAllAbsentShort(y, search, replace);
      }
    } else {
      assert x + y == y;
    }
  }

  lemma ReplaceAllAbsentShort(s: string, search: string, replace: string)
    requires |s| < |search|
    ensures ReplaceAll(s, search, replace) == s
  {
  }

  /**
   * `str_replace($searches, $replaces, $s)` with arrays: each search string
   * in turn is replaced everywhere in the result of the previous step, and a
   * search string without a matching replacement is replaced by `''`.
   */
  function ReplaceEach(s: string, searches: seq<string>, replacements: seq<string>): (r: string)
    ensures searches == replacements ==> r == s
    decreases |searches|
  {
    if searches == [] then s
    else
      var rep := if replacements == [] then "" else replacements[0];
      ReplaceEach(ReplaceAll(s, searches[0], rep), searches[1..], if replacements == [] then [] else replacements[1..])
  }

  /** A text that lacks the first character of `search` does not contain it. */
  lemma FirstCharAbsent(s: string, search: string)
    requires |search| > 0
    requires forall i :: 0 <= i < |s| ==> s[i] != search[0]
    ensures !Contains(s, search)
  {
    forall i | 0 <= i && i + |search| <= |s| ensures !OccursAt(s, search, i) {
      assert s[i..i + |search|][0] == s[i];
    }
  }

  /**
   * When no search string can start anywhere in `s` (its first character is
   * absent from `s`), `str_replace` leaves `s` unchanged.
   */
  lemma {:induction false} ReplaceEachAbsent(s: string, searches: seq<string>, replacements: seq<string>)
    requires forall k :: 0 <= k < |searches| ==> |searches[k]| > 0
    requires forall k, i :: 0 <= k < |searches| && 0 <= i < |s| ==> s[i] != searches[k][0]
    ensures ReplaceEach(s, searches, replacements) == s
    decreases |searches|
  {
    if searches != [] {
      var rep := if replacements == [] then "" else replacements[0];
      FirstCharAbsent(s, searches[0]);
      ReplaceAllAbsent(s, searches[0], rep);
      ReplaceEachAbsent(s, searches[1..], if replacements == [] then [] else replacements[1..]);
    }
  }

  /** The decimal digit for `d`. */
  function Digit(d: nat): (c: char)
    requires d < 10
    ensures '0' <= c <= '9'
  {
    ('0' as int + d) as char
  }

  /** The decimal representation of `n`, without leading zeros. */
  function NatToString(n: nat): (r: string)
    ensures |r| > 0
    ensures forall i :: 0 <= i < |r| ==> '0' <= r[i] <= '9'
    ensures |r| > 1 ==> r[0] != '0'
  {
    if n < 10 then [Digit(n)] else NatToString(n / 10) + [Digit(n % 10)]
  }

  /** The value a decimal string of digits denotes. */
  function DecimalValue(s: string): nat
    requires forall i :: 0 <= i < |s| ==> '0' <= s[i] <= '9'
  {
    if s == [] then 0 else 10 * DecimalValue(s[..|s| - 1]) + (s[|s| - 1] as int - '0' as int)
  }

  /** Reading back the decimal representation gives the number. */
  lemma {:induction false} NatToStringValue(n: nat)
    ensures DecimalValue(NatToString(n)) == n
  {
    if n >= 10 {
      NatToStringValue(n / 10);
      var r := NatToString(n);
      assert r[..|r| - 1] == NatToString(n / 10);
    }
  }

  /** `strval($i)` for an integer: an optional minus sign and the digits. */
  function IntToString(i: int): (r: string)
    ensures |r| > 0
    ensures i < 0 ==> r[0] == '-' && r[1..] == NatToString(-i)
    ensures i >= 0 ==> r == NatToString(i)
  {
    if i < 0 then "-" + NatToString(-i) else NatToString(i)
  }
}
