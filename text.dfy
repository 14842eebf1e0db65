/**
 * String helpers used by the station resolver: the normalisation `_norm`
 * (diacritic stripping, lower-casing, whitespace collapsing), Python's
 * `str.startswith`, `in` on strings, `str.replace` and `str.strip`.
 */
module Text {

  /**
   * One character's share of `unicodedata.normalize("NFKD", ...)` followed by
   * dropping every combining character. Canonical reordering only permutes
   * combining characters, which are all dropped, so the whole step is the
   * concatenation of these per-character results. Unicode's tables are not
   * part of this model, so the folding is a parameter.
   */
  type Folding = char -> string

  /** The folding leaves ASCII alone, as NFKD does. */
  ghost predicate AsciiFixed(fold: Folding) {
    forall c: char :: c < '\U{80}' ==> fold(c) == [c]
  }

  predicate IsAscii(s: string) {
    forall i :: 0 <= i < |s| ==> s[i] < '\U{80}'
  }

  /**
   * Python's `str.isspace`, which is also what `\s` and `str.strip()` use.
   * `int()` leaves out U+001C to U+001F (`DbTime.IntSpace`).
   */
  predicate IsSpace(c: char) {
    || c == ' '
    || ('\U{9}' <= c <= '\U{D}')
    || ('\U{1C}' <= c <= '\U{1F}')
    || c == '\U{85}' || c == '\U{A0}' || c == '\U{1680}'
    || ('\U{2000}' <= c <= '\U{200A}')
    || c == '\U{2028}' || c == '\U{2029}' || c == '\U{202F}' || c == '\U{205F}' || c == '\U{3000}'
  }

  /** Upper-case letters of ASCII and Latin-1 (the part of `str.lower` this model covers). */
  predicate IsUpper(c: char) {
    ('A' <= c <= 'Z') || ('\U{C0}' <= c <= '\U{DE}' && c != '\U{D7}')
  }

  function LowerChar(c: char): (r: char)
    ensures !IsUpper(r)
    ensures !IsUpper(c) ==> r == c
    ensures IsSpace(r) <==> IsSpace(c)
  {
    if IsUpper(c) then (c as int + 32) as char else c
  }

  /** `str.lower()` on ASCII and Latin-1. */
  function Lower(s: string): (r: string)
    ensures |r| == |s|
    ensures forall i :: 0 <= i < |r| ==> !IsUpper(r[i])
    ensures forall i :: 0 <= i < |s| && !IsUpper(s[i]) ==> r[i] == s[i]
    ensures forall i :: 0 <= i < |s| ==> (IsSpace(r[i]) <==> IsSpace(s[i]))
  {
    seq(|s|, i requires 0 <= i < |s| => LowerChar(s[i]))
  }

  /** NFKD decomposition with combining characters removed. */
  function StripMarks(fold: Folding, s: string): string
  {
    if s == [] then [] else fold(s[0]) + StripMarks(fold, s[1..])
  }

  /** The non-whitespace characters of `s`, in order. */
  function Solid(s: string): string
  {
    if s == [] then [] else (if IsSpace(s[0]) then [] else [s[0]]) + Solid(s[1..])
  }

  /** The first position at or after `i` that does not hold whitespace, or `|s|`. */
  function SkipFrom(s: string, i: nat): (k: nat)
    requires i <= |s|
    ensures i <= k <= |s|
    ensures k == |s| || !IsSpace(s[k])
    decreases |s| - i
  {
    if i < |s| && IsSpace(s[i]) then SkipFrom(s, i + 1) else i
  }

  /** The last position at or before `j` preceded by no whitespace, or 0. */
  function SkipBack(s: string, j: nat): (k: nat)
    requires j <= |s|
    ensures k <= j
    ensures k == 0 || !IsSpace(s[k - 1])
  {
    if j > 0 && IsSpace(s[j - 1]) then SkipBack(s, j - 1) else j
  }

  /** `s` with its leading whitespace removed. */
  function TrimLeft(s: string): (r: string)
    ensures |r| <= |s| && r == s[|s| - |r|..]
    ensures r == [] || !IsSpace(r[0])
    ensures s != [] && IsSpace(s[0]) ==> |r| < |s|
  {
    s[SkipFrom(s, 0)..]
  }

  lemma {:induction false} SkipFromSpaces(s: string, i: nat)
    requires i <= |s|
    ensures forall j :: i <= j < SkipFrom(s, i) ==> IsSpace(s[j])
    decreases |s| - i
  {
    if i < |s| && IsSpace(s[i]) {
      SkipFromSpaces(s, i + 1);
    }
  }

  lemma {:induction false} SkipBackSpaces(s: string, j: nat)
    requires j <= |s|
    ensures forall i :: SkipBack(s, j) <= i < j ==> IsSpace(s[i])
  {
    if j > 0 && IsSpace(s[j - 1]) {
      SkipBackSpaces(s, j - 1);
    }
  }

  /** `TrimLeft` drops only whitespace. */
  lemma TrimLeftDropsSpaces(s: string)
    ensures forall i :: 0 <= i < |s| - |TrimLeft(s)| ==> IsSpace(s[i])
  {
    SkipFromSpaces(s, 0);
  }

  /** Python's `str.strip()`. */
  function Trim(s: string): (r: string)
    ensures r == [] || (!IsSpace(r[0]) && !IsSpace(r[|r| - 1]))
  {
    var a := SkipFrom(s, 0);
    var b := SkipBack(s, |s|);
    if b <= a then [] else s[a..b]
  }

  /** `strip()` keeps one slice of `s` and drops only whitespace around it. */
  lemma TrimSlice(s: string) returns (a: nat, b: nat)
    ensures a <= b <= |s| && Trim(s) == s[a..b]
    ensures forall i :: 0 <= i < a ==> IsSpace(s[i])
    ensures forall i :: b <= i < |s| ==> IsSpace(s[i])
  {
    a, b := SkipFrom(s, 0), SkipBack(s, |s|);
    SkipFromSpaces(s, 0);
    SkipBackSpaces(s, |s|);
    if b <= a {
      a, b := 0, 0;
    }
  }

  /** A string with no whitespace at either end is its own `strip()`. */
  lemma TrimFixesEdges(s: string)
    requires s == [] || (!IsSpace(s[0]) && !IsSpace(s[|s| - 1]))
    ensures Trim(s) == s
  {
    if s != [] {
      assert SkipFrom(s, 0) == 0;
      assert SkipBack(s, |s|) == |s|;
      assert s[0..|s|] == s;
    }
  }

  /** `re.sub(r"\s+", " ", s)`: each maximal run of whitespace becomes one space. */
  function Squeeze(s: string): string
    decreases |s|
  {
    if s == [] then []
    else if IsSpace(s[0]) then " " + Squeeze(TrimLeft(s))
    else [s[0]] + Squeeze(s[1..])
  }

  /** Every whitespace character is a plain space and no two spaces are adjacent. */
  ghost predicate Squeezed(s: string) {
    && (forall i :: 0 <= i < |s| && IsSpace(s[i]) ==> s[i] == ' ')
    && (forall i :: 0 <= i < |s| - 1 && s[i] == ' ' ==> s[i + 1] != ' ')
  }

  /** Words separated by single spaces, nothing at either end. */
  ghost predicate Collapsed(s: string) {
    Squeezed(s) && (s == [] || (s[0] != ' ' && s[|s| - 1] != ' '))
  }

  /** `re.sub(r"\s+", " ", s).strip()`. */
  function Collapse(s: string): string
  {
    Trim(Squeeze(s))
  }

  /** `_norm`: fold away diacritics, lower-case, collapse whitespace. */
  function Norm(fold: Folding, s: string): string
  {
    Collapse(Lower(StripMarks(fold, s)))
  }

  /**
   * `needle in hay` on Python strings: `needle` occurs at some position.
   */
  function Contains(hay: string, needle: string): (r: bool)
    ensures r <==> exists i :: 0 <= i <= |hay| && needle <= hay[i..]
    decreases |hay|
  {
    if needle <= hay then assert hay[0..] == hay; true
    else if hay == [] then false
    else
      var r := Contains(hay[1..], needle);
      assert forall i :: 1 <= i <= |hay| ==> hay[i..] == hay[1..][i - 1..];
      assert r ==> exists i :: 0 <= i <= |hay| && needle <= hay[i..] by {
        if r {
          var j :| 0 <= j <= |hay[1..]| && needle <= hay[1..][j..];
          assert hay[1..][j..] == hay[j + 1..];
        }
      }
      r
  }

  /** `s.replace(a, b)` for single characters. */
  function ReplaceChar(s: string, a: char, b: char): (r: string)
    ensures |r| == |s|
    ensures forall i :: 0 <= i < |s| ==> r[i] == (if s[i] == a then b else s[i])
    ensures a != b ==> a !in r
    ensures a !in s ==> r == s
  {
    seq(|s|, i requires 0 <= i < |s| => if s[i] == a then b else s[i])
  }

  /** Replacing characters works piece by piece: it distributes over concatenation. */
  lemma ReplaceCharAppend(x: string, y: string, a: char, b: char)
    ensures ReplaceChar(x + y, a, b) == ReplaceChar(x, a, b) + ReplaceChar(y, a, b)
  {
    var l, r := ReplaceChar(x + y, a, b), ReplaceChar(x, a, b) + ReplaceChar(y, a, b);
    forall i | 0 <= i < |l| ensures l[i] == r[i] {
      if i < |x| { assert (x + y)[i] == x[i]; } else { assert (x + y)[i] == y[i - |x|]; }
    }
  }

  // ---------------------------------------------------------------------------
  // Properties of the normalisation

  lemma {:induction false} StripMarksAscii(fold: Folding, s: string)
    requires AsciiFixed(fold) && IsAscii(s)
    ensures StripMarks(fold, s) == s
  {
    if s != [] {
      assert IsAscii(s[1..]) by {
        forall i | 0 <= i < |s[1..]| ensures s[1..][i] < '\U{80}' { assert s[1..][i] == s[i + 1]; }
      }
      StripMarksAscii(fold, s[1..]);
    }
  }

  lemma {:induction false} SolidAppend(a: string, b: string)
    ensures Solid(a + b) == Solid(a) + Solid(b)
  {
    if a == [] {
      assert a + b == b;
    } else {
      assert (a + b)[1..] == a[1..] + b;
      SolidAppend(a[1..], b);
    }
  }

  lemma {:induction false} SolidOfSpaces(s: string)
    requires forall i :: 0 <= i < |s| ==> IsSpace(s[i])
    ensures Solid(s) == []
  {
    if s != [] {
      SolidOfSpaces(s[1..]);
    }
  }

  /** Trimming removes only whitespace. */
  lemma TrimKeepsSolid(s: string)
    ensures Solid(Trim(s)) == Solid(s)
  {
    var a, b := TrimSlice(s);
    var p, m, q := s[..a], s[a..b], s[b..];
    SplitThree(s, a, b);
    forall i | 0 <= i < |p| ensures IsSpace(p[i]) { assert p[i] == s[i]; }
    forall i | 0 <= i < |q| ensures IsSpace(q[i]) { assert q[i] == s[b + i]; }
    SolidAppend(p + m, q);
    SolidAppend(p, m);
    SolidOfSpaces(p);
    SolidOfSpaces(q);
    assert Solid(s) == [] + Solid(m) + [];
  }

  /** A proof helper for `TrimKeepsSolid`: a sequence is its three consecutive slices. */
  lemma SplitThree<T>(s: seq<T>, a: nat, b: nat)
    requires a <= b <= |s|
    ensures s == s[..a] + s[a..b] + s[b..]
  {
  }

  lemma {:induction false} SqueezeSolid(s: string)
    ensures Solid(Squeeze(s)) == Solid(s)
    decreases |s|
  {
    if s == [] {
    } else if IsSpace(s[0]) {
      var t := TrimLeft(s);
      TrimLeftDropsSpaces(s);
      SqueezeSolid(t);
      SolidAppend(" ", Squeeze(t));
      assert s == s[..|s| - |t|] + t;
      SolidAppend(s[..|s| - |t|], t);
      SolidOfSpaces(s[..|s| - |t|]);
    } else {
      SqueezeSolid(s[1..]);
      SolidAppend([s[0]], Squeeze(s[1..]));
    }
  }

  /** The result of `Squeeze` starts with a space exactly when the input starts with whitespace. */
  lemma {:induction false} SqueezeShape(s: string)
    ensures Squeezed(Squeeze(s))
    ensures Squeeze(s) != [] ==> (Squeeze(s)[0] == ' ' <==> IsSpace(s[0]))
    ensures Squeeze(s) == [] <==> s == []
    decreases |s|
  {
    if s == [] {
    } else if IsSpace(s[0]) {
      var t := TrimLeft(s);
      SqueezeShape(t);
      var q := Squeeze(t);
      assert Squeeze(s) == " " + q;
      assert q != [] ==> q[0] != ' ' by {
        if q != [] { assert !IsSpace(t[0]); }
      }
    } else {
      SqueezeShape(s[1..]);
      assert Squeeze(s) == [s[0]] + Squeeze(s[1..]);
    }
  }

  /** `TrimLeft` is the one suffix that follows a whitespace prefix and does not itself start with whitespace. */
  lemma TrimLeftUnique(s: string, p: string, r: string)
    requires s == p + r && (forall i :: 0 <= i < |p| ==> IsSpace(p[i]))
    requires r == [] || !IsSpace(r[0])
    ensures TrimLeft(s) == r
  {
    TrimLeftDropsSpaces(s);
    assert s[|s| - |r|..] == r;
  }

  /** A run of whitespace on its own becomes a single space. */
  lemma SqueezeSpaces(w: string)
    requires w != [] && forall i :: 0 <= i < |w| ==> IsSpace(w[i])
    ensures Squeeze(w) == " "
  {
    TrimLeftUnique(w, w, []);
    assert w + [] == w;
  }

  /**
   * The substitution works piece by piece wherever the cut does not split a
   * run of whitespace.
   */
  lemma {:induction false} SqueezeAppend(a: string, b: string)
    requires a == [] || b == [] || !IsSpace(a[|a| - 1]) || !IsSpace(b[0])
    ensures Squeeze(a + b) == Squeeze(a) + Squeeze(b)
    decreases |a|
  {
    if a == [] {
      assert a + b == b;
    } else if !IsSpace(a[0]) {
      assert (a + b)[0] == a[0] && (a + b)[1..] == a[1..] + b;
      SqueezeAppend(a[1..], b);
    } else {
      var t := TrimLeft(a);
      if t == [] {
        assert t + b == b;
      } else {
        assert t[|t| - 1] == a[|a| - 1];
        SqueezeAppend(t, b);
      }
      SqueezeAppendSpace(a, b);
    }
  }

  /** The step of `SqueezeAppend` for a leading run: given the property for what follows the run, it holds for the whole. */
  lemma SqueezeAppendSpace(a: string, b: string)
    requires a != [] && IsSpace(a[0])
    requires b == [] || !IsSpace(a[|a| - 1]) || !IsSpace(b[0])
    requires Squeeze(TrimLeft(a) + b) == Squeeze(TrimLeft(a)) + Squeeze(b)
    ensures Squeeze(a + b) == Squeeze(a) + Squeeze(b)
  {
    var t := TrimLeft(a);
    TrimLeftDropsSpaces(a);
    var p := a[..|a| - |t|];
    SplitAppend(a, b, |a| - |t|);
    if t == [] {
      assert p == a && t + b == b;
    } else {
      assert (t + b)[0] == t[0];
    }
    TrimLeftUnique(a + b, p, t + b);
    assert (a + b)[0] == a[0];
    SqueezeSpaceHead(a + b);
    SqueezeSpaceHead(a);
    AppendAssoc(" ", Squeeze(t), Squeeze(b));
  }

  /** A leading whitespace run becomes one space, followed by the rest squeezed. */
  lemma SqueezeSpaceHead(s: string)
    requires s != [] && IsSpace(s[0])
    ensures Squeeze(s) == " " + Squeeze(TrimLeft(s))
  {
  }

  /** A proof helper for `SqueezeAppendSpace`: concatenation regroups. */
  lemma AppendAssoc<T>(x: seq<T>, y: seq<T>, z: seq<T>)
    ensures x + (y + z) == (x + y) + z
  {
  }

  /** A proof helper for `SqueezeAppendSpace`: cutting `a` at `k` and regrouping the concatenation with `b`. */
  lemma SplitAppend<T>(a: seq<T>, b: seq<T>, k: nat)
    requires k <= |a|
    ensures a == a[..k] + a[k..] && a + b == a[..k] + (a[k..] + b)
  {
  }

  /** Each whitespace run between two words becomes exactly one space, in its own place. */
  lemma SqueezeRun(a: string, w: string, b: string)
    requires w != [] && forall i :: 0 <= i < |w| ==> IsSpace(w[i])
    requires a == [] || !IsSpace(a[|a| - 1])
    requires b == [] || !IsSpace(b[0])
    ensures Squeeze(a + w + b) == Squeeze(a) + " " + Squeeze(b)
  {
    SqueezeAppend(a, w);
    SqueezeAppend(a + w, b);
    SqueezeSpaces(w);
  }

  lemma SqueezedSlice(s: string, a: nat, b: nat)
    requires Squeezed(s) && a <= b <= |s|
    ensures Squeezed(s[a..b])
  {
    var t := s[a..b];
    forall i | 0 <= i < |t| - 1 && t[i] == ' ' ensures t[i + 1] != ' ' {
      assert t[i] == s[a + i] && t[i + 1] == s[a + i + 1];
    }
  }

  lemma TrimSqueezed(q: string)
    requires Squeezed(q)
    ensures Collapsed(Trim(q))
  {
    var a, b := TrimSlice(q);
    SqueezedSlice(q, a, b);
  }

  /** `_norm`'s whitespace step leaves single-space-separated words and keeps every other character. */
  lemma CollapseSpec(s: string)
    ensures Collapsed(Collapse(s))
    ensures Solid(Collapse(s)) == Solid(s)
  {
    var q := Squeeze(s);
    SqueezeShape(s);
    SqueezeSolid(s);
    TrimKeepsSolid(q);
    TrimSqueezed(q);
  }

  lemma {:induction false} SqueezeFixesSqueezed(s: string)
    requires Squeezed(s)
    ensures Squeeze(s) == s
    decreases |s|
  {
    if s != [] {
      SqueezedSlice(s, 1, |s|);
      SqueezeFixesSqueezed(s[1..]);
      if IsSpace(s[0]) {
        assert s[0] == ' ';
        assert TrimLeft(s) == s[1..] by {
          if |s| > 1 { assert s[1] != ' '; assert !IsSpace(s[1]); }
          assert SkipFrom(s, 0) == SkipFrom(s, 1) == 1;
        }
      }
    }
  }

  /** Collapsing whitespace is idempotent: a collapsed string is its own result. */
  lemma CollapseFixesCollapsed(s: string)
    requires Collapsed(s)
    ensures Collapse(s) == s
  {
    SqueezeFixesSqueezed(s);
    TrimFixesEdges(s);
  }

  lemma CollapseIdempotent(s: string)
    ensures Collapse(Collapse(s)) == Collapse(s)
  {
    CollapseSpec(s);
    CollapseFixesCollapsed(Collapse(s));
  }

  lemma LowerIdempotent(s: string)
    ensures Lower(Lower(s)) == Lower(s)
  {
  }

  /**
   * A string that is already normalised ASCII (lower-case, single spaces) is
   * its own normal form, whatever the folding does beyond ASCII.
   */
  lemma NormFixesNormalAscii(fold: Folding, s: string)
    requires AsciiFixed(fold) && IsAscii(s) && Collapsed(s)
    requires forall i :: 0 <= i < |s| ==> !IsUpper(s[i])
    ensures Norm(fold, s) == s
  {
    StripMarksAscii(fold, s);
    assert Lower(s) == s;
    CollapseFixesCollapsed(s);
  }
}
