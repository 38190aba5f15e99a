/** String operations the form library relies on: the JavaScript `\s`
    character class, `String.prototype.split(/\s/)` and the substring test
    behind `/required/.test(...)`. */
module Text {

  /** The characters matched by the JavaScript regular-expression class `\s`
      (ECMAScript WhiteSpace and LineTerminator). */
  predicate IsSpace(c: char)
  {
    var n := c as int;
    n == 0x09 || n == 0x0A || n == 0x0B || n == 0x0C || n == 0x0D || n == 0x20 ||
    n == 0xA0 || n == 0x1680 || (0x2000 <= n <= 0x200A) || n == 0x2028 ||
    n == 0x2029 || n == 0x202F || n == 0x205F || n == 0x3000 || n == 0xFEFF
  }

  predicate NoSpace(s: string)
  {
    forall i :: 0 <= i < |s| ==> !IsSpace(s[i])
  }

  /** Number of whitespace characters in `s`. */
  function SpaceCount(s: string): nat
  {
    if |s| == 0 then 0 else (if IsSpace(s[0]) then 1 else 0) + SpaceCount(s[1..])
  }

  /** The separators of a concatenation are those of its two parts. */
  lemma {:induction false} SpaceCountAppend(a: string, b: string)
    ensures SpaceCount(a + b) == SpaceCount(a) + SpaceCount(b)
  {
    if |a| > 0 {
      assert (a + b)[1..] == a[1..] + b;
      SpaceCountAppend(a[1..], b);
    } else {
      assert a + b == b;
    }
  }

  /** `s.split(/\s/)`: every single whitespace character separates two pieces,
      so consecutive separators give empty pieces and the result is never
      empty (`"".split(/\s/)` is `[""]`). */
  function Split(s: string): (pieces: seq<string>)
    ensures |pieces| >= 1
  {
    if |s| == 0 then [""]
    else
      var rest := Split(s[1..]);
      if IsSpace(s[0]) then [""] + rest
      else [[s[0]] + rest[0]] + rest[1..]
  }

  /** `pieces.join(sep)`. */
  function Join(pieces: seq<string>, sep: char): string
    requires |pieces| >= 1
  {
    if |pieces| == 1 then pieces[0] else pieces[0] + [sep] + Join(pieces[1..], sep)
  }

  /** No piece of a split contains a separator. */
  lemma {:induction false} SplitPiecesHaveNoSpace(s: string)
    ensures forall k :: 0 <= k < |Split(s)| ==> NoSpace(Split(s)[k])
  {
    if |s| > 0 {
      SplitPiecesHaveNoSpace(s[1..]);
      var rest := Split(s[1..]);
      if !IsSpace(s[0]) {
        var head := [s[0]] + rest[0];
        assert NoSpace(head) by {
          forall i | 0 <= i < |head| ensures !IsSpace(head[i]) {
            if i > 0 { assert head[i] == rest[0][i - 1]; }
          }
        }
      }
    }
  }

  /** There is exactly one more piece than there are separators. */
  lemma {:induction false} SplitCount(s: string)
    ensures |Split(s)| == SpaceCount(s) + 1
  {
    if |s| > 0 { SplitCount(s[1..]); }
  }

  /** When every separator in `s` is a plain space, joining the pieces with a
      space gives `s` back: the split loses nothing but the separators. */
  lemma {:induction false} SplitJoin(s: string)
    requires forall i :: 0 <= i < |s| && IsSpace(s[i]) ==> s[i] == ' '
    ensures Join(Split(s), ' ') == s
  {
    if |s| > 0 {
      var t := s[1..];
      assert forall i :: 0 <= i < |t| && IsSpace(t[i]) ==> t[i] == ' ' by {
        forall i | 0 <= i < |t| && IsSpace(t[i]) ensures t[i] == ' ' { assert t[i] == s[i + 1]; }
      }
      SplitJoin(t);
      var rest := Split(t);
      if IsSpace(s[0]) {
        assert Split(s) == [""] + rest;
        assert ([""] + rest)[1..] == rest;
      } else {
        JoinHead(rest, [s[0]], ' ');
        assert Split(s) == [[s[0]] + rest[0]] + rest[1..];
      }
    }
  }

  /** Prepending to the first piece prepends to the joined string. */
  lemma JoinHead(pieces: seq<string>, prefix: string, sep: char)
    requires |pieces| >= 1
    ensures Join([prefix + pieces[0]] + pieces[1..], sep) == prefix + Join(pieces, sep)
  {
    var q := [prefix + pieces[0]] + pieces[1..];
    if |pieces| > 1 {
      assert q[1..] == pieces[1..];
    }
  }

  /** A string without separators splits into itself alone. */
  lemma {:induction false} SplitNoSpace(s: string)
    requires NoSpace(s)
    ensures Split(s) == [s]
  {
    if |s| > 0 {
      var t := s[1..];
      assert NoSpace(t) by {
        forall i | 0 <= i < |t| ensures !IsSpace(t[i]) { assert t[i] == s[i + 1]; }
      }
      SplitNoSpace(t);
      assert !IsSpace(s[0]);
      assert [s[0]] + t == s;
    }
  }

  /** The pieces of `p` and `q` with the last piece of `p` glued to the
      first piece of `q`. */
  function Glue(p: seq<string>, q: seq<string>): (r: seq<string>)
    requires |p| >= 1 && |q| >= 1
  {
    p[..|p| - 1] + [p[|p| - 1] + q[0]] + q[1..]
  }

  /** Splitting a concatenation glues the last piece of `a` to the first
      piece of `b`: no separator is inserted between the two strings. */
  lemma {:induction false} SplitAppend(a: string, b: string)
    ensures Split(a + b) == Glue(Split(a), Split(b))
  {
    if |a| == 0 {
      assert a + b == b;
      var sb := Split(b);
      assert "" + sb[0] == sb[0];
      assert [sb[0]] + sb[1..] == sb;
      assert Glue(Split(a), sb) == [] + [sb[0]] + sb[1..];
    } else {
      var c, t := a[0], a[1..];
      assert (a + b)[1..] == t + b;
      SplitAppend(t, b);
      if IsSpace(c) {
        GlueAfterEmpty(Split(t), Split(b));
      } else {
        GlueAfterChar(c, Split(t), Split(b));
      }
    }
  }

  /** Gluing onto an empty last piece just concatenates the pieces. */
  lemma GlueAfterEmptyPiece(p: seq<string>, q: seq<string>)
    requires |p| >= 1 && |q| >= 1 && p[|p| - 1] == ""
    ensures Glue(p, q) == p[..|p| - 1] + q
  {
    assert p[|p| - 1] + q[0] == q[0];
    assert [q[0]] + q[1..] == q;
  }

  lemma GlueAfterEmpty(p: seq<string>, q: seq<string>)
    requires |p| >= 1 && |q| >= 1
    ensures Glue([""] + p, q) == [""] + Glue(p, q)
  {
    assert ([""] + p)[..|p|] == [""] + p[..|p| - 1];
  }

  lemma GlueAfterChar(c: char, p: seq<string>, q: seq<string>)
    requires |p| >= 1 && |q| >= 1
    ensures var g := Glue(p, q);
      Glue([[c] + p[0]] + p[1..], q) == [[c] + g[0]] + g[1..]
  {
    var g := Glue(p, q);
    if |p| == 1 {
      assert g == [p[0] + q[0]] + q[1..];
      assert [c] + (p[0] + q[0]) == ([c] + p[0]) + q[0];
    } else {
      assert g[0] == p[0];
      assert g[1..] == p[1..|p| - 1] + [p[|p| - 1] + q[0]] + q[1..];
      var pc := [[c] + p[0]] + p[1..];
      assert pc[..|pc| - 1] == [[c] + p[0]] + p[1..|p| - 1];
    }
  }

  /** `word` occurs in `s` starting at index `i`. */
  predicate OccursAt(s: string, word: string, i: nat)
  {
    i + |word| <= |s| && s[i..i + |word|] == word
  }

  /** `/word/.test(s)` for a literal `word`: a substring test. */
  function Contains(s: string, word: string): (r: bool)
    ensures r <==> exists i: nat :: OccursAt(s, word, i)
  {
    if word <= s then
      assert OccursAt(s, word, 0);
      true
    else if |s| == 0 then
      false
    else
      var r := Contains(s[1..], word);
      ShiftOccurrence(s, word);
      r
  }

  /** An occurrence in `s` past the first character is an occurrence in `s[1..]`. */
  lemma ShiftOccurrence(s: string, word: string)
    requires |s| > 0 && !(word <= s)
    ensures (exists i: nat :: OccursAt(s, word, i)) <==> (exists i: nat :: OccursAt(s[1..], word, i))
  {
    if exists i: nat :: OccursAt(s, word, i) {
      var i: nat :| OccursAt(s, word, i);
      assert i != 0;
      assert s[1..][i - 1..i - 1 + |word|] == s[i..i + |word|];
      assert OccursAt(s[1..], word, i - 1);
    }
    if exists i: nat :: OccursAt(s[1..], word, i) {
      var i: nat :| OccursAt(s[1..], word, i);
      assert s[1..][i..i + |word|] == s[i + 1..i + 1 + |word|];
      assert OccursAt(s, word, i + 1);
    }
  }
}
