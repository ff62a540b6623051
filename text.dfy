/**
 * Plain-text helpers the entry model relies on: Ruby's notion of a blank
 * string (ActiveSupport `blank?` / `present?` / `presence`), ActiveSupport's
 * `squish`, and `downcase`.
 */
module Strings {
  import opened Wrappers

  /** A character of the POSIX bracket class `[[:space:]]` on Unicode strings
      (the Unicode White_Space property). */
  predicate IsSpace(c: char) {
    var n := c as int;
    (0x09 <= n <= 0x0D) || n == 0x20 || n == 0x85 || n == 0xA0 || n == 0x1680 ||
    (0x2000 <= n <= 0x200A) || n == 0x2028 || n == 0x2029 || n == 0x202F ||
    n == 0x205F || n == 0x3000
  }

  /** `String#blank?`: empty, or whitespace only. */
  predicate Blank(s: string) {
    forall i :: 0 <= i < |s| ==> IsSpace(s[i])
  }

  /** The characters of `s` that are not whitespace, in order. */
  function NonSpace(s: string): (r: string)
    ensures |r| <= |s|
    ensures forall i :: 0 <= i < |r| ==> !IsSpace(r[i])
  {
    if s == [] then []
    else if IsSpace(s[0]) then NonSpace(s[1..])
    else [s[0]] + NonSpace(s[1..])
  }

  lemma {:induction false} NonSpaceAppend(a: string, b: string)
    ensures NonSpace(a + b) == NonSpace(a) + NonSpace(b)
  {
    if a == [] {
      assert a + b == b;
    } else {
      assert (a + b)[1..] == a[1..] + b;
      NonSpaceAppend(a[1..], b);
    }
  }

  lemma NonSpaceCons(c: char, x: string)
    ensures IsSpace(c) ==> NonSpace([c] + x) == NonSpace(x)
    ensures !IsSpace(c) ==> NonSpace([c] + x) == [c] + NonSpace(x)
  {
    assert ([c] + x)[1..] == x;
  }

  /** A string is blank exactly when it has no non-whitespace character. */
  lemma {:induction false} BlankIffNoContent(s: string)
    ensures Blank(s) <==> NonSpace(s) == []
  {
    if s != [] {
      BlankIffNoContent(s[1..]);
      assert Blank(s) <==> IsSpace(s[0]) && Blank(s[1..]);
    }
  }

  /** Drops the leading `[[:space:]]` characters, the stripping `squish` does at the front. */
  function TrimStart(s: string): (r: string)
    ensures |r| <= |s| && r == s[|s| - |r|..]
    ensures r == [] || !IsSpace(r[0])
    ensures Blank(s[..|s| - |r|])
  {
    if s != [] && IsSpace(s[0]) then
      var r := TrimStart(s[1..]);
      assert s[..|s| - |r|] == [s[0]] + s[1..][..|s| - 1 - |r|];
      r
    else s
  }

  /** Stripping the front keeps every non-whitespace character. */
  lemma {:induction false} TrimStartContent(s: string)
    ensures NonSpace(TrimStart(s)) == NonSpace(s)
  {
    if s != [] && IsSpace(s[0]) {
      TrimStartContent(s[1..]);
    }
  }

  /** Drops the trailing `[[:space:]]` characters, the stripping `squish` does at the back. */
  function TrimEnd(s: string): (r: string)
    ensures |r| <= |s| && r == s[..|r|]
    ensures r == [] || !IsSpace(r[|r| - 1])
    ensures Blank(s[|r|..])
  {
    if s != [] && IsSpace(s[|s| - 1]) then
      var init := s[..|s| - 1];
      var r := TrimEnd(init);
      TrimEndBlank(s, r);
      r
    else s
  }

  lemma TrimEndBlank(s: string, r: string)
    requires s != [] && IsSpace(s[|s| - 1])
    requires |r| <= |s| - 1 && Blank(s[..|s| - 1][|r|..])
    ensures Blank(s[|r|..])
  {
    assert s[|r|..] == s[..|s| - 1][|r|..] + [s[|s| - 1]];
  }

  /** Stripping the back keeps every non-whitespace character. */
  lemma {:induction false} TrimEndContent(s: string)
    ensures NonSpace(TrimEnd(s)) == NonSpace(s)
    decreases |s|
  {
    if s != [] && IsSpace(s[|s| - 1]) {
      var n := |s| - 1;
      TrimEndContent(s[..n]);
      assert s == s[..n] + [s[n]];
      NonSpaceAppend(s[..n], [s[n]]);
    }
  }

  /** Every whitespace character of `s` is a plain space. */
  ghost predicate PlainSpaces(s: string) {
    forall i :: 0 <= i < |s| && IsSpace(s[i]) ==> s[i] == ' '
  }

  /** No two adjacent characters of `s` are both whitespace. */
  ghost predicate NoDoubleSpace(s: string) {
    forall i, j :: 0 <= i && j == i + 1 && j < |s| ==> !IsSpace(s[i]) || !IsSpace(s[j])
  }

  ghost predicate Collapsed(s: string) {
    PlainSpaces(s) && NoDoubleSpace(s)
  }

  /** `gsub(/[[:space:]]+/, " ")`: every maximal run of whitespace becomes one space. */
  function Collapse(s: string): (r: string)
    ensures s != [] && !IsSpace(s[0]) ==> r != [] && r[0] == s[0]
    ensures s == [] <==> r == []
  {
    if s == [] then []
    else if IsSpace(s[0]) then
      var rest := TrimStart(s);
      [' '] + Collapse(rest)
    else
      [s[0]] + Collapse(s[1..])
  }

  /** Prepending one character keeps a string collapsed when it is not a
      second whitespace character in a row. */
  lemma ConsCollapsed(c: char, x: string)
    requires Collapsed(x)
    requires IsSpace(c) ==> c == ' ' && (x == [] || !IsSpace(x[0]))
    ensures Collapsed([c] + x)
  {
    var s := [c] + x;
    forall i | 0 <= i < |s| && IsSpace(s[i]) ensures s[i] == ' ' {
      if i > 0 {
        assert s[i] == x[i - 1];
      }
    }
    forall i, j | 0 <= i && j == i + 1 && j < |s| ensures !IsSpace(s[i]) || !IsSpace(s[j]) {
      if i > 0 {
        assert s[i] == x[i - 1] && s[j] == x[j - 1];
      } else {
        assert s[j] == x[0];
      }
    }
  }

  /** The result of collapsing has only single plain spaces. */
  lemma {:induction false} CollapseIsCollapsed(s: string)
    ensures Collapsed(Collapse(s))
    decreases |s|
  {
    if s != [] {
      if IsSpace(s[0]) {
        var t := TrimStart(s);
        CollapseIsCollapsed(t);
        ConsCollapsed(' ', Collapse(t));
      } else {
        CollapseIsCollapsed(s[1..]);
        ConsCollapsed(s[0], Collapse(s[1..]));
      }
    }
  }

  /** Collapsing keeps every non-whitespace character, in order. */
  lemma {:induction false} CollapseKeepsContent(s: string)
    ensures NonSpace(Collapse(s)) == NonSpace(s)
    decreases |s|
  {
    if s != [] {
      if IsSpace(s[0]) {
        var t := TrimStart(s);
        CollapseKeepsContent(t);
        TrimStartContent(s);
        NonSpaceCons(' ', Collapse(t));
      } else {
        CollapseKeepsContent(s[1..]);
        NonSpaceCons(s[0], Collapse(s[1..]));
      }
    }
  }

  /** Squished text: no whitespace at either end, and inside only single spaces. */
  ghost predicate Squished(s: string) {
    Collapsed(s) && (s == [] || (!IsSpace(s[0]) && !IsSpace(s[|s| - 1])))
  }

  /** ActiveSupport `String#squish`: collapse whitespace runs to one space, then strip. */
  function Squish(s: string): string
  {
    TrimEnd(TrimStart(Collapse(s)))
  }

  /** The result of `squish` has no whitespace at either end and only single
      plain spaces inside. */
  lemma SquishSquished(s: string)
    ensures Squished(Squish(s))
  {
    var c := Collapse(s);
    var l := TrimStart(c);
    CollapseIsCollapsed(s);
    TrimmedSquished(c, l, TrimEnd(l));
  }

  /** `squish` keeps every non-whitespace character, in order. */
  lemma SquishKeepsContent(s: string)
    ensures NonSpace(Squish(s)) == NonSpace(s)
  {
    var c := Collapse(s);
    CollapseKeepsContent(s);
    TrimStartContent(c);
    TrimEndContent(TrimStart(c));
  }

  lemma TrimmedSquished(c: string, l: string, t: string)
    requires Collapsed(c)
    requires |l| <= |c| && l == c[|c| - |l|..]
    requires |t| <= |l| && t == l[..|t|]
    requires l == [] || !IsSpace(l[0])
    requires t == [] || !IsSpace(t[|t| - 1])
    ensures Squished(t)
  {
    assert t == [] || t[0] == l[0];
    var a := |c| - |l|;
    forall i | 0 <= i < |t| && IsSpace(t[i]) ensures t[i] == ' ' {
      assert t[i] == c[a + i];
    }
    forall i, j | 0 <= i && j == i + 1 && j < |t| ensures !IsSpace(t[i]) || !IsSpace(t[j]) {
      assert t[i] == c[a + i] && t[j] == c[a + j];
    }
  }

  lemma {:induction false} CollapseFixed(s: string)
    requires Collapsed(s)
    ensures Collapse(s) == s
  {
    if s != [] {
      var tail := s[1..];
      CollapsedTail(s);
      CollapseFixed(tail);
      if IsSpace(s[0]) {
        assert tail == [] || !IsSpace(tail[0]);
        assert TrimStart(tail) == tail;
        assert TrimStart(s) == tail;
      }
    }
  }

  lemma CollapsedTail(s: string)
    requires s != [] && Collapsed(s)
    ensures Collapsed(s[1..])
  {
    var tail := s[1..];
    forall i | 0 <= i < |tail| && IsSpace(tail[i]) ensures tail[i] == ' ' {
      assert tail[i] == s[i + 1];
    }
    forall i, j | 0 <= i && j == i + 1 && j < |tail| ensures !IsSpace(tail[i]) || !IsSpace(tail[j]) {
      assert tail[i] == s[i + 1] && tail[j] == s[j + 1];
    }
  }

  /** A squished string is left unchanged by `squish`. */
  lemma SquishFixed(s: string)
    requires Squished(s)
    ensures Squish(s) == s
  {
    CollapseFixed(s);
    assert s == [] || !IsSpace(s[0]);
    assert s == [] || !IsSpace(s[|s| - 1]);
  }

  /** `squish` is idempotent. */
  lemma SquishIdempotent(s: string)
    ensures Squish(Squish(s)) == Squish(s)
  {
    SquishSquished(s);
    SquishFixed(Squish(s));
  }

  // ---------------------------------------------------------------------
  // Each whitespace run becomes exactly one space, in place
  // ---------------------------------------------------------------------

  /** Leading whitespace is only stripped from the front: text after a
      non-blank prefix is untouched. */
  lemma {:induction false} TrimStartAppend(a: string, b: string)
    requires !Blank(a)
    ensures TrimStart(a + b) == TrimStart(a) + b
  {
    if IsSpace(a[0]) {
      assert (a + b)[0] == a[0] && (a + b)[1..] == a[1..] + b;
      assert !Blank(a[1..]) by {
        var i :| 0 <= i < |a| && !IsSpace(a[i]);
        assert a[1..][i - 1] == a[i];
      }
      TrimStartAppend(a[1..], b);
    } else {
      assert (a + b)[0] == a[0];
    }
  }

  /** A blank run in front of non-whitespace is stripped completely. */
  lemma {:induction false} TrimStartBlank(w: string, b: string)
    requires Blank(w)
    requires b == [] || !IsSpace(b[0])
    ensures TrimStart(w + b) == b
  {
    if w == [] {
      assert w + b == b;
    } else {
      assert (w + b)[0] == w[0] && (w + b)[1..] == w[1..] + b;
      TrimStartBlank(w[1..], b);
    }
  }

  /** Trailing whitespace is only stripped from the back: text before a
      non-blank suffix is untouched. */
  lemma {:induction false} TrimEndAppend(a: string, b: string)
    requires !Blank(b)
    ensures TrimEnd(a + b) == a + TrimEnd(b)
  {
    var n := |b| - 1;
    assert (a + b)[|a + b| - 1] == b[n];
    if IsSpace(b[n]) {
      assert (a + b)[..|a + b| - 1] == a + b[..n];
      assert !Blank(b[..n]) by {
        var i :| 0 <= i < |b| && !IsSpace(b[i]);
        assert i < n && b[..n][i] == b[i];
      }
      TrimEndAppend(a, b[..n]);
    }
  }

  /** Stripping the front of text that ends in non-whitespace keeps that end. */
  lemma {:induction false} TrimStartKeepsLast(a: string)
    requires a != [] && !IsSpace(a[|a| - 1])
    ensures TrimStart(a) != [] && TrimStart(a)[|TrimStart(a)| - 1] == a[|a| - 1]
  {
    if IsSpace(a[0]) {
      assert a[1..][|a| - 2] == a[|a| - 1];
      TrimStartKeepsLast(a[1..]);
    }
  }

  /** Collapsing keeps a final non-whitespace character last. */
  lemma {:induction false} CollapseLast(a: string)
    requires a != [] && !IsSpace(a[|a| - 1])
    ensures Collapse(a) != [] && Collapse(a)[|Collapse(a)| - 1] == a[|a| - 1]
    decreases |a|
  {
    if IsSpace(a[0]) {
      TrimStartKeepsLast(a);
      CollapseLast(TrimStart(a));
    } else if |a| > 1 {
      assert a[1..][|a| - 2] == a[|a| - 1];
      CollapseLast(a[1..]);
    }
  }

  /** Collapsing works piece by piece when the first piece ends in
      non-whitespace: no run spans the boundary. */
  lemma {:induction false} CollapseAppend(a: string, b: string)
    requires a == [] || !IsSpace(a[|a| - 1])
    ensures Collapse(a + b) == Collapse(a) + Collapse(b)
    decreases |a|
  {
    if a == [] {
      assert a + b == b;
    } else if IsSpace(a[0]) {
      var t := TrimStart(a);
      TrimStartKeepsLast(a);
      CollapseAppend(t, b);
      CollapseSpaceHead(a, b, t);
    } else {
      assert (a + b)[0] == a[0] && (a + b)[1..] == a[1..] + b;
      assert a[1..] == [] || a[1..][|a| - 2] == a[|a| - 1];
      CollapseAppend(a[1..], b);
    }
  }

  lemma CollapseSpaceHead(a: string, b: string, t: string)
    requires a != [] && IsSpace(a[0]) && !IsSpace(a[|a| - 1])
    requires t == TrimStart(a)
    requires Collapse(t + b) == Collapse(t) + Collapse(b)
    ensures Collapse(a + b) == Collapse(a) + Collapse(b)
  {
    var ct, cb := Collapse(t), Collapse(b);
    assert Collapse(a + b) == [' '] + Collapse(t + b) by {
      assert (a + b)[0] == a[0];
      assert !Blank(a);
      TrimStartAppend(a, b);
    }
    assert Collapse(a) == [' '] + ct;
    ConsAppend(' ', ct, cb);
  }

  /** Sequence algebra kept apart from the `Collapse` terms. */
  lemma ConsAppend(c: char, x: string, y: string)
    ensures [c] + (x + y) == ([c] + x) + y
  {
  }

  lemma ConsTail(c: char, x: string)
    ensures ([c] + x)[1..] == x
  {
  }

  /** A whitespace run in front of non-whitespace becomes exactly one space. */
  lemma CollapseRun(w: string, b: string)
    requires w != [] && Blank(w)
    requires b == [] || !IsSpace(b[0])
    ensures Collapse(w + b) == [' '] + Collapse(b)
  {
    assert (w + b)[0] == w[0];
    TrimStartBlank(w, b);
  }

  /** Collapsing text split by a whitespace run puts exactly one space
      between the collapsed pieces. */
  lemma CollapseSeparates(a: string, w: string, b: string)
    requires a != [] && !IsSpace(a[|a| - 1])
    requires w != [] && Blank(w)
    requires b == [] || !IsSpace(b[0])
    ensures Collapse(a + w + b) == Collapse(a) + ([' '] + Collapse(b))
  {
    AppendAssoc(a, w, b);
    CollapseAppend(a, w + b);
    CollapseRun(w, b);
  }

  /** Stripping both ends of two pieces joined by one space strips each piece
      on its own side only. */
  lemma StripJoin(c: string, d: string)
    requires c != [] && !IsSpace(c[|c| - 1])
    requires d != [] && !IsSpace(d[0])
    ensures TrimEnd(TrimStart(c + ([' '] + d))) == TrimEnd(TrimStart(c)) + " " + TrimEnd(TrimStart(d))
  {
    var sd := [' '] + d;
    assert !Blank(c);
    TrimStartAppend(c, sd);
    var x := TrimStart(c);
    TrimStartKeepsLast(c);
    assert sd[1] == d[0];
    TrimEndAppend(x, sd);
    TrimEndAppend([' '], d);
    assert TrimEnd(x) == x;
    assert TrimStart(d) == d;
    AppendAssoc(x, [' '], TrimEnd(d));
  }

  lemma AppendAssoc(x: string, y: string, z: string)
    ensures x + y + z == x + (y + z)
  {
  }

  /** `squish` keeps words apart: a whitespace run between two pieces of
      text becomes exactly one space between their squished forms. */
  lemma SquishSeparates(a: string, w: string, b: string)
    requires a != [] && !IsSpace(a[|a| - 1])
    requires w != [] && Blank(w)
    requires b != [] && !IsSpace(b[0])
    ensures Squish(a + w + b) == Squish(a) + " " + Squish(b)
  {
    var ca, cb := Collapse(a), Collapse(b);
    assert Collapse(a + w + b) == ca + ([' '] + cb) by {
      CollapseSeparates(a, w, b);
    }
    assert TrimEnd(TrimStart(ca + ([' '] + cb))) == TrimEnd(TrimStart(ca)) + " " + TrimEnd(TrimStart(cb)) by {
      CollapseLast(a);
      StripJoin(ca, cb);
    }
  }

  /** `String#presence`: the string itself unless it is blank. */
  function Presence(s: string): (r: Option<string>)
    ensures r.Some? <==> !Blank(s)
    ensures r.Some? ==> r.value == s
  {
    if Blank(s) then None else Some(s)
  }

  /** `String#downcase` on one character (ASCII letters only). */
  function DowncaseChar(c: char): (d: char)
    ensures !('A' <= d <= 'Z')
    ensures 'A' <= c <= 'Z' ==> d as int == c as int + 32
    ensures !('A' <= c <= 'Z') ==> d == c
  {
    if 'A' <= c <= 'Z' then (c as int + 32) as char else c
  }

  predicate IsLower(s: string) {
    forall i :: 0 <= i < |s| ==> !('A' <= s[i] <= 'Z')
  }

  /** `String#downcase`. */
  function Downcase(s: string): (r: string)
    ensures |r| == |s| && IsLower(r)
    ensures forall i :: 0 <= i < |s| ==> r[i] == DowncaseChar(s[i])
  {
    seq(|s|, i requires 0 <= i < |s| => DowncaseChar(s[i]))
  }

  lemma DowncaseLowerFixed(s: string)
    requires IsLower(s)
    ensures Downcase(s) == s
  {
  }

}
