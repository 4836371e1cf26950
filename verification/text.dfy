/** String assembly and disassembly: joining parts with a separator (as
    JavaScript's `Array.prototype.join` does), splitting at a separator
    character, and substring containment. */
module Text {

  /** `parts` concatenated with `sep` between each neighbouring pair. */
  function Join(parts: seq<string>, sep: string): string
  {
    if |parts| == 0 then ""
    else if |parts| == 1 then parts[0]
    else parts[0] + sep + Join(parts[1..], sep)
  }

  /** The maximal runs of `s` that do not contain `sep`, in order; there is
      always one more run than there are occurrences of `sep`. */
  function Split(s: string, sep: char): (r: seq<string>)
    ensures |r| >= 1
  {
    if |s| == 0 then [""]
    else
      var rest := Split(s[1..], sep);
      if s[0] == sep then [""] + rest
      else [[s[0]] + rest[0]] + rest[1..]
  }

  predicate IsPrefix(p: string, s: string) {
    |p| <= |s| && s[..|p|] == p
  }

  /** `needle` occurs somewhere inside `hay`. */
  predicate IsInfix(needle: string, hay: string) {
    exists i :: 0 <= i <= |hay| && IsPrefix(needle, hay[i..])
  }

  /** Every part of a join appears in the joined string. */
  lemma {:induction false} JoinContainsParts(parts: seq<string>, sep: string, k: nat)
    requires k < |parts|
    ensures IsInfix(parts[k], Join(parts, sep))
  {
    var j := Join(parts, sep);
    if |parts| == 1 {
      assert IsPrefix(parts[0], j[0..]);
    } else if k == 0 {
      assert IsPrefix(parts[0], j[0..]);
    } else {
      JoinContainsParts(parts[1..], sep, k - 1);
      InfixAfter(parts[k], parts[0] + sep, Join(parts[1..], sep));
    }
  }

  /** Containment survives putting text in front. */
  lemma InfixAfter(needle: string, front: string, hay: string)
    requires IsInfix(needle, hay)
    ensures IsInfix(needle, front + hay)
  {
    var i :| 0 <= i <= |hay| && IsPrefix(needle, hay[i..]);
    assert (front + hay)[|front| + i..] == hay[i..];
    assert IsPrefix(needle, (front + hay)[|front| + i..]);
  }

  /** Containment survives putting text behind. */
  lemma InfixBefore(needle: string, hay: string, back: string)
    requires IsInfix(needle, hay)
    ensures IsInfix(needle, hay + back)
  {
    var i :| 0 <= i <= |hay| && IsPrefix(needle, hay[i..]);
    assert (hay + back)[i..][..|needle|] == hay[i..][..|needle|];
    assert IsPrefix(needle, (hay + back)[i..]);
  }

  /** The first character of a non-empty infix occurs in the string. */
  lemma InfixHead(needle: string, hay: string)
    requires |needle| > 0 && IsInfix(needle, hay)
    ensures needle[0] in hay
  {
  }

  /** Splitting and re-joining with the same separator gives back the input. */
  lemma {:induction false} JoinSplit(s: string, sep: char)
    ensures Join(Split(s, sep), [sep]) == s
  {
    if |s| > 0 {
      var rest := Split(s[1..], sep);
      JoinSplit(s[1..], sep);
      if s[0] == sep {
        assert ([""] + rest)[1..] == rest;
      } else {
        var r := [[s[0]] + rest[0]] + rest[1..];
        if |rest| == 1 {
          assert r == [[s[0]] + rest[0]];
        } else {
          assert r[1..] == rest[1..];
          assert Join(rest, [sep]) == rest[0] + [sep] + Join(rest[1..], [sep]);
        }
      }
    }
  }

  /** A string without the separator splits into itself alone. */
  lemma {:induction false} SplitWithout(a: string, sep: char)
    requires sep !in a
    ensures Split(a, sep) == [a]
  {
    if |a| > 0 {
      assert sep !in a[1..] by {
        forall c | c in a[1..] ensures c in a { }
      }
      SplitWithout(a[1..], sep);
      assert a[0] != sep;
      assert [a[0]] + a[1..] == a;
    }
  }

  /** A separator-free prefix followed by the separator is split off as the
      first run. */
  lemma {:induction false} SplitAfter(a: string, sep: char, t: string)
    requires sep !in a
    ensures Split(a + [sep] + t, sep) == [a] + Split(t, sep)
  {
    if |a| == 0 {
      assert a + [sep] + t == [sep] + t;
      assert ([sep] + t)[1..] == t;
    } else {
      assert sep !in a[1..] by {
        forall c | c in a[1..] ensures c in a { }
      }
      assert (a + [sep] + t)[1..] == a[1..] + [sep] + t;
      SplitAfter(a[1..], sep, t);
      assert [a[0]] + a[1..] == a;
    }
  }
}
