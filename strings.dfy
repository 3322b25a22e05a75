/**
 * String helpers with Python's meaning: `str.split(sep)`, `sep.join(...)`,
 * `str.split()` / `str.strip()` on whitespace, `int(...)` on a decimal
 * literal, and the code-point order Python and SQLite (BINARY collation) use
 * to compare text.
 */
module Strings {
  import opened Common

  // ---------------------------------------------------------------------------
  // Counting
  // ---------------------------------------------------------------------------

  /** Number of occurrences of `x` in `s` (Python's `s.count(x)` for one element). */
  function Count<T(==)>(s: seq<T>, x: T): (n: nat)
    ensures n <= |s|
    ensures n == 0 <==> x !in s
  {
    if s == [] then 0 else Count(s[..|s| - 1], x) + (if s[|s| - 1] == x then 1 else 0)
  }

  lemma {:induction false} CountAppend<T>(a: seq<T>, b: seq<T>, x: T)
    ensures Count(a + b, x) == Count(a, x) + Count(b, x)
    decreases |b|
  {
    if b == [] {
      assert a + b == a;
    } else {
      assert (a + b)[..|a + b| - 1] == a + b[..|b| - 1];
      CountAppend(a, b[..|b| - 1], x);
    }
  }

  /** The multiset of a non-empty list is that of its first part plus its last element. */
  lemma MultisetSnoc<T>(s: seq<T>)
    requires s != []
    ensures multiset(s) == multiset(s[..|s| - 1]) + multiset{s[|s| - 1]}
  {
    assert s == s[..|s| - 1] + [s[|s| - 1]];
  }

  /** Concatenation of a list of lists, in order. */
  function Flatten<T>(xs: seq<seq<T>>): (r: seq<T>)
  {
    if xs == [] then [] else Flatten(xs[..|xs| - 1]) + xs[|xs| - 1]
  }

  lemma {:induction false} FlattenAppend<T>(a: seq<seq<T>>, b: seq<seq<T>>)
    ensures Flatten(a + b) == Flatten(a) + Flatten(b)
    decreases |b|
  {
    if b == [] {
      assert a + b == a;
    } else {
      var init, x := b[..|b| - 1], b[|b| - 1];
      var ab := a + b;
      assert ab[..|ab| - 1] == a + init && ab[|ab| - 1] == x;
      assert Flatten(ab) == Flatten(a + init) + x;
      assert Flatten(b) == Flatten(init) + x;
      FlattenAppend(a, init);
    }
  }

  /** The elements of a finite set, each once, in an order the model leaves open (a `fetchall()` without ORDER BY). */
  method Enumerate<T(==)>(s: set<T>) returns (xs: seq<T>)
    ensures |xs| == |s|
    ensures forall x :: x in xs <==> x in s
    ensures forall i, j :: 0 <= i < j < |xs| ==> xs[i] != xs[j]
  {
    xs := [];
    var rest := s;
    while rest != {}
      invariant rest <= s
      invariant forall x :: x in xs <==> x in s && x !in rest
      invariant forall i, j :: 0 <= i < j < |xs| ==> xs[i] != xs[j]
      invariant |xs| + |rest| == |s|
      decreases |rest|
    {
      var x :| x in rest;
      xs := xs + [x];
      rest := rest - {x};
    }
  }

  lemma FlattenCons<T>(x: seq<T>, rest: seq<seq<T>>)
    ensures Flatten([x] + rest) == x + Flatten(rest)
  {
    FlattenAppend([x], rest);
    assert [x][..0] == [];
  }

  // ---------------------------------------------------------------------------
  // Text order
  // ---------------------------------------------------------------------------

  /**
   * Strict lexicographic order on code points: Python's `a < b` on `str`,
   * and SQLite's BINARY collation on UTF-8 text (UTF-8 preserves code-point order).
   */
  predicate Less(a: string, b: string)
  {
    if a == [] then b != []
    else if b == [] then false
    else if a[0] != b[0] then a[0] < b[0]
    else Less(a[1..], b[1..])
  }

  lemma {:induction false} LessIrreflexive(a: string)
    ensures !Less(a, a)
  {
    if a != [] {
      LessIrreflexive(a[1..]);
    }
  }

  lemma {:induction false} LessTransitive(a: string, b: string, c: string)
    requires Less(a, b) && Less(b, c)
    ensures Less(a, c)
  {
    if a != [] && b != [] && c != [] && a[0] == b[0] && b[0] == c[0] {
      LessTransitive(a[1..], b[1..], c[1..]);
    }
  }

  lemma {:induction false} LessTotal(a: string, b: string)
    ensures a == b || Less(a, b) || Less(b, a)
  {
    if a != [] && b != [] && a[0] == b[0] {
      LessTotal(a[1..], b[1..]);
      if a[1..] == b[1..] {
        assert a == [a[0]] + a[1..] && b == [b[0]] + b[1..];
      }
    }
  }

  lemma {:induction false} LessAsymmetric(a: string, b: string)
    requires Less(a, b)
    ensures !Less(b, a)
  {
    if Less(b, a) {
      LessTransitive(a, b, a);
      LessIrreflexive(a);
    }
  }

  /** Every finite non-empty set of strings has a least element in text order. */
  lemma {:induction false} LeastExists(s: set<string>) returns (m: string)
    requires s != {}
    ensures m in s
    ensures forall x :: x in s && x != m ==> Less(m, x)
    decreases |s|
  {
    var x :| x in s;
    if s == {x} {
      m := x;
    } else {
      var m' := LeastExists(s - {x});
      LessTotal(x, m');
      if Less(x, m') {
        m := x;
        forall y | y in s && y != m
          ensures Less(m, y)
        {
          if y != m' {
            LessTransitive(x, m', y);
          }
        }
      } else {
        m := m';
      }
    }
  }

  /** The smallest element of a non-empty set in text order, found by one scan. */
  method Smallest(s: set<string>) returns (m: string)
    requires s != {}
    ensures m in s
    ensures forall x :: x in s && x != m ==> Less(m, x)
  {
    m :| m in s;
    var rest := s - {m};
    while rest != {}
      invariant rest <= s && m in s && m !in rest
      invariant forall x :: x in s && x !in rest && x != m ==> Less(m, x)
      decreases |rest|
    {
      var x :| x in rest;
      LessTotal(m, x);
      if Less(x, m) {
        forall y | y in s && y !in rest - {x} && y != x
          ensures Less(x, y)
        {
          if y != m {
            LessTransitive(x, m, y);
          }
        }
        m := x;
      }
      rest := rest - {x};
    }
  }

  // ---------------------------------------------------------------------------
  // str.split(sep) and sep.join(parts)
  // ---------------------------------------------------------------------------

  /** Python's `s.split(sep)` for a one-character separator: never empty, keeps empty parts. */
  function Split(s: string, sep: char): (parts: seq<string>)
    ensures |parts| >= 1
    ensures forall i :: 0 <= i < |parts| ==> sep !in parts[i]
  {
    if s == [] then [[]]
    else
      var rest := Split(s[1..], sep);
      if s[0] == sep then [[]] + rest
      else [[s[0]] + rest[0]] + rest[1..]
  }

  /** Python's `sep.join(parts)` for a one-character separator. */
  function Join(parts: seq<string>, sep: char): string
  {
    if |parts| == 0 then []
    else if |parts| == 1 then parts[0]
    else parts[0] + [sep] + Join(parts[1..], sep)
  }

  /** Splitting and joining on the same separator gives back the text. */
  lemma {:induction false} JoinSplit(s: string, sep: char)
    ensures Join(Split(s, sep), sep) == s
  {
    if s != [] {
      JoinSplit(s[1..], sep);
      var rest := Split(s[1..], sep);
      if s[0] == sep {
        assert Split(s, sep) == [[]] + rest;
        assert Split(s, sep)[1..] == rest;
        assert s == [] + [sep] + s[1..];
      } else {
        var parts := Split(s, sep);
        assert parts == [[s[0]] + rest[0]] + rest[1..];
        if |rest| == 1 {
          assert s == [s[0]] + s[1..];
        } else {
          assert parts[1..] == rest[1..];
          assert Join(rest, sep) == rest[0] + [sep] + Join(rest[1..], sep);
          assert s == [s[0]] + s[1..];
        }
      }
    }
  }

  /** `s.split(sep)` has one more part than `s` has separators. */
  lemma {:induction false} SplitLength(s: string, sep: char)
    ensures |Split(s, sep)| == Count(s, sep) + 1
  {
    if s != [] {
      SplitLength(s[1..], sep);
      assert s == [s[0]] + s[1..];
      CountAppend([s[0]], s[1..], sep);
      assert Count([s[0]], sep) == (if s[0] == sep then 1 else 0) by {
        assert [s[0]][..0] == [];
      }
    }
  }

  /** Parts that hold no separator come back unchanged from a join followed by a split. */
  lemma {:induction false} SplitJoin(parts: seq<string>, sep: char)
    requires |parts| >= 1
    requires forall i :: 0 <= i < |parts| ==> sep !in parts[i]
    ensures Split(Join(parts, sep), sep) == parts
    decreases |parts|, |parts[0]|
  {
    if |parts| == 1 {
      SplitNoSep(parts[0], sep);
    } else if parts[0] == [] {
      var tail := parts[1..];
      SplitJoin(tail, sep);
      var s := Join(parts, sep);
      assert s == [sep] + Join(tail, sep);
      SplitCons(sep, Join(tail, sep), sep);
      assert parts == [[]] + tail;
    } else {
      var shorter := [parts[0][1..]] + parts[1..];
      assert forall i :: 1 <= i < |shorter| ==> shorter[i] == parts[i];
      SplitJoin(shorter, sep);
      SplitJoinHead(parts, shorter, sep);
    }
  }

  /** Text made of two separator-free parts splits into those two parts. */
  lemma SplitTwo(a: string, b: string, sep: char)
    requires sep !in a && sep !in b
    ensures Split(a + [sep] + b, sep) == [a, b]
  {
    assert Join([a, b], sep) == a + [sep] + b;
    SplitJoin([a, b], sep);
  }

  /** The step of `SplitJoin` that moves the first character of the first part. */
  lemma SplitJoinHead(parts: seq<string>, shorter: seq<string>, sep: char)
    requires |parts| >= 2 && parts[0] != [] && parts[0][0] != sep
    requires shorter == [parts[0][1..]] + parts[1..]
    requires Split(Join(shorter, sep), sep) == shorter
    ensures Split(Join(parts, sep), sep) == parts
  {
    var c := parts[0][0];
    var rest, tail := Join(shorter, sep), Join(parts[1..], sep);
    assert rest == parts[0][1..] + [sep] + tail by { assert shorter[1..] == parts[1..]; }
    assert parts[0] == [c] + parts[0][1..];
    assert Join(parts, sep) == parts[0] + [sep] + tail;
    assert Join(parts, sep) == [c] + rest;
    SplitCons(c, rest, sep);
    assert parts == [parts[0]] + parts[1..];
  }

  /** Splitting a text that starts with `c`: a separator opens an empty part, anything else joins the first part. */
  lemma SplitCons(c: char, t: string, sep: char)
    ensures c == sep ==> Split([c] + t, sep) == [[]] + Split(t, sep)
    ensures c != sep ==> Split([c] + t, sep) == [[c] + Split(t, sep)[0]] + Split(t, sep)[1..]
  {
    assert ([c] + t)[1..] == t;
  }

  lemma {:induction false} SplitNoSep(s: string, sep: char)
    requires sep !in s
    ensures Split(s, sep) == [s]
  {
    if s != [] {
      SplitNoSep(s[1..], sep);
      assert [s[0]] + s[1..] == s;
    }
  }

  // ---------------------------------------------------------------------------
  // Maximal runs of characters: str.split() and the word tokenizers
  // ---------------------------------------------------------------------------

  /**
   * The maximal runs of consecutive characters satisfying `p`, in order.
   * Defined by the last character, the order in which a left-to-right scan
   * extends them.
   */
  function Runs(s: string, p: char -> bool): (r: seq<string>)
    ensures s != [] && p(s[|s| - 1]) ==> r != []
  {
    if s == [] then []
    else
      var init, c := s[..|s| - 1], s[|s| - 1];
      var r := Runs(init, p);
      if !p(c) then r
      else if init != [] && p(init[|init| - 1]) then r[..|r| - 1] + [r[|r| - 1] + [c]]
      else r + [[c]]
  }

  /** Every run is non-empty and made of `p` characters. */
  predicate RunsOfP(r: seq<string>, p: char -> bool)
  {
    && (forall i :: 0 <= i < |r| ==> r[i] != [])
    && (forall i, k :: 0 <= i < |r| && 0 <= k < |r[i]| ==> p(r[i][k]))
  }

  /** No character of `s` satisfies `p`. */
  predicate NoneOf(s: string, p: char -> bool)
  {
    forall k :: 0 <= k < |s| ==> !p(s[k])
  }

  /** The runs are non-empty `p` texts; a text with no `p` character has none. */
  lemma {:induction false} RunsShape(s: string, p: char -> bool)
    ensures RunsOfP(Runs(s, p), p)
    ensures NoneOf(s, p) ==> Runs(s, p) == []
    decreases |s|
  {
    if s != [] {
      var init, c := s[..|s| - 1], s[|s| - 1];
      assert s == init + [c];
      RunsShape(init, p);
      var prior := Runs(init, p);
      NoneOfSnoc(init, c, p);
      if !p(c) {
        RunsDrop(init, c, p);
      } else if init != [] && p(init[|init| - 1]) {
        RunsGrow(init, c, p, prior);
        RunsOfPGrow(prior, c, p);
      } else {
        RunsStart(init, c, p);
        RunsOfPStart(prior, c, p);
      }
    }
  }

  lemma NoneOfSnoc(init: string, c: char, p: char -> bool)
    ensures NoneOf(init + [c], p) ==> NoneOf(init, p) && !p(c)
  {
    if NoneOf(init + [c], p) {
      forall k | 0 <= k < |init| ensures !p(init[k]) {
        assert init[k] == (init + [c])[k];
      }
      assert (init + [c])[|init|] == c;
    }
  }

  lemma RunsOfPGrow(prior: seq<string>, c: char, p: char -> bool)
    requires RunsOfP(prior, p) && prior != [] && p(c)
    ensures RunsOfP(prior[..|prior| - 1] + [prior[|prior| - 1] + [c]], p)
  {
    var r := prior[..|prior| - 1] + [prior[|prior| - 1] + [c]];
    forall i, k | 0 <= i < |r| && 0 <= k < |r[i]| ensures p(r[i][k]) {
      if i < |r| - 1 {
        assert r[i] == prior[i];
      } else if k < |r[i]| - 1 {
        assert r[i][k] == prior[i][k];
      }
    }
  }

  lemma RunsOfPStart(prior: seq<string>, c: char, p: char -> bool)
    requires RunsOfP(prior, p) && p(c)
    ensures RunsOfP(prior + [[c]], p)
  {
    var r := prior + [[c]];
    forall i, k | 0 <= i < |r| && 0 <= k < |r[i]| ensures p(r[i][k]) {
      if i < |prior| {
        assert r[i] == prior[i];
      }
    }
  }

  /** A last character that is not a run character is dropped. */
  lemma RunsDrop(init: string, d: char, p: char -> bool)
    requires !p(d)
    ensures Runs(init + [d], p) == Runs(init, p)
  {
    assert (init + [d])[..|init|] == init;
  }

  /** A run character after a run character extends the last run. */
  lemma RunsGrow(init: string, d: char, p: char -> bool, prior: seq<string>)
    requires p(d) && init != [] && p(init[|init| - 1])
    requires prior == Runs(init, p)
    ensures prior != []
    ensures Runs(init + [d], p) == prior[..|prior| - 1] + [prior[|prior| - 1] + [d]]
  {
    assert (init + [d])[..|init|] == init;
  }

  /** A run character after anything else starts a new run. */
  lemma RunsStart(init: string, d: char, p: char -> bool)
    requires p(d) && !(init != [] && p(init[|init| - 1]))
    ensures Runs(init + [d], p) == Runs(init, p) + [[d]]
  {
    assert (init + [d])[..|init|] == init;
  }

  /** Appending one character after a separated text keeps the runs separated. */
  lemma RunsSeparatedSnoc(a: string, c: char, b: string, d: char, p: char -> bool)
    requires !p(c)
    requires Runs(a + [c] + b, p) == Runs(a, p) + Runs(b, p)
    ensures Runs(a + [c] + b + [d], p) == Runs(a, p) + Runs(b + [d], p)
  {
    var init := a + [c] + b;
    var ra, rb, rj := Runs(a, p), Runs(b, p), Runs(init, p);
    var grows := b != [] && p(b[|b| - 1]);
    assert grows <==> init != [] && p(init[|init| - 1]) by {
      assert init[|init| - 1] == if b == [] then c else b[|b| - 1];
    }
    if !p(d) {
      RunsDrop(init, d, p);
      RunsDrop(b, d, p);
    } else if grows {
      RunsGrow(b, d, p, rb);
      RunsGrow(init, d, p, rj);
      RunsSeparatedGrow(ra, rb, rj, d);
    } else {
      RunsStart(b, d, p);
      RunsStart(init, d, p);
    }
  }

  /** The list step of `RunsSeparatedSnoc` when the last run grows. */
  lemma RunsSeparatedGrow(ra: seq<string>, rb: seq<string>, rj: seq<string>, d: char)
    requires rb != [] && rj == ra + rb
    ensures rj[..|rj| - 1] + [rj[|rj| - 1] + [d]] == ra + (rb[..|rb| - 1] + [rb[|rb| - 1] + [d]])
  {
    assert rj[..|rj| - 1] == ra + rb[..|rb| - 1];
  }

  /** A run-separating character splits the runs of a text in two. */
  lemma {:induction false} RunsAtSeparator(a: string, c: char, b: string, p: char -> bool)
    requires !p(c)
    ensures Runs(a + [c] + b, p) == Runs(a, p) + Runs(b, p)
    decreases |b|
  {
    if b == [] {
      RunsDrop(a, c, p);
      assert a + [c] + b == a + [c];
    } else {
      var b', d := b[..|b| - 1], b[|b| - 1];
      RunsAtSeparator(a, c, b', p);
      RunsSeparatedSnoc(a, c, b', d, p);
      assert b' + [d] == b;
      assert a + [c] + b' + [d] == a + [c] + b;
    }
  }

  /** A non-empty text made only of run characters is one run. */
  lemma {:induction false} RunsOfRun(w: string, p: char -> bool)
    requires w != []
    requires forall k :: 0 <= k < |w| ==> p(w[k])
    ensures Runs(w, p) == [w]
    decreases |w|
  {
    var init := w[..|w| - 1];
    if init != [] {
      RunsOfRun(init, p);
    }
    assert init + [w[|w| - 1]] == w;
  }

  lemma {:induction false} JoinSnoc(parts: seq<string>, w: string, sep: char)
    requires parts != []
    ensures Join(parts + [w], sep) == Join(parts, sep) + [sep] + w
    decreases |parts|
  {
    if |parts| == 1 {
      assert (parts + [w])[1..] == [w];
    } else {
      assert (parts + [w])[1..] == parts[1..] + [w];
      JoinSnoc(parts[1..], w, sep);
    }
  }

  /** Joining runs with a separator character and taking the runs again gives them back. */
  lemma {:induction false} RunsOfJoin(ws: seq<string>, sep: char, p: char -> bool)
    requires !p(sep)
    requires forall i :: 0 <= i < |ws| ==> ws[i] != []
    requires forall i, k :: 0 <= i < |ws| && 0 <= k < |ws[i]| ==> p(ws[i][k])
    ensures Runs(Join(ws, sep), p) == ws
    decreases |ws|
  {
    if |ws| == 1 {
      RunsOfRun(ws[0], p);
    } else if |ws| > 1 {
      var init, w := ws[..|ws| - 1], ws[|ws| - 1];
      assert init + [w] == ws;
      JoinSnoc(init, w, sep);
      RunsOfJoin(init, sep, p);
      RunsAtSeparator(Join(init, sep), sep, w, p);
      RunsOfRun(w, p);
    }
  }

  // ---------------------------------------------------------------------------
  // Whitespace: str.split() with no argument, str.strip()
  // ---------------------------------------------------------------------------

  /**
   * The characters Python's `str.isspace()` accepts, which `split()` and
   * `strip()` treat as whitespace: tab to carriage return, the separators
   * 0x1C-0x1F, space, and the Unicode spaces and line separators.
   */
  predicate IsSpace(c: char)
  {
    ('\t' <= c <= '\r') || ('\U{1C}' <= c <= ' ') || c == '\U{85}' || c == '\U{A0}' || c == '\U{1680}'
    || ('\U{2000}' <= c <= '\U{200A}') || c == '\U{2028}' || c == '\U{2029}' || c == '\U{202F}'
    || c == '\U{205F}' || c == '\U{3000}'
  }

  predicate NotSpace(c: char) { !IsSpace(c) }

  /** Python's `s.split()`: the maximal runs of non-whitespace. */
  function Words(s: string): seq<string>
  {
    Runs(s, NotSpace)
  }

  /** Drops the leading and trailing characters for which `space` holds. */
  function Trim(s: string, space: char -> bool): (r: string)
    ensures r == [] || (!space(r[0]) && !space(r[|r| - 1]))
    ensures r == [] <==> forall k :: 0 <= k < |s| ==> space(s[k])
  {
    TrimEnd(TrimStart(s, space), space)
  }

  function TrimStart(s: string, space: char -> bool): (r: string)
    ensures |r| <= |s| && r == s[|s| - |r|..]
    ensures forall k :: 0 <= k < |s| - |r| ==> space(s[k])
    ensures r == [] || !space(r[0])
  {
    if s != [] && space(s[0]) then TrimStart(s[1..], space) else s
  }

  function TrimEnd(s: string, space: char -> bool): (r: string)
    ensures |r| <= |s| && r == s[..|r|]
    ensures forall k :: |r| <= k < |s| ==> space(s[k])
    ensures r == [] || !space(r[|r| - 1])
  {
    if s != [] && space(s[|s| - 1]) then TrimEnd(s[..|s| - 1], space) else s
  }

  /** Python's `s.strip()`: drops leading and trailing whitespace. */
  function Strip(s: string): (r: string)
    ensures r == [] || (NotSpace(r[0]) && NotSpace(r[|r| - 1]))
    ensures r == [] <==> forall k :: 0 <= k < |s| ==> IsSpace(s[k])
  {
    Trim(s, IsSpace)
  }

  /** A `space` character after the text does not change what is trimmed. */
  lemma TrimSpaceAfter(s: string, c: char, space: char -> bool)
    requires space(c)
    ensures Trim(s + [c], space) == Trim(s, space)
  {
    if TrimStart(s, space) != [] {
      TrimStartAppend(s, [c], space);
      TrimEndSpaces(TrimStart(s, space), [c], space);
    } else {
      assert forall k :: 0 <= k < |s| ==> space(s[k]);
      assert forall k :: 0 <= k < |s + [c]| ==> space((s + [c])[k]);
    }
  }

  /** A text that starts and ends with kept characters is its own trim. */
  lemma TrimKeeps(s: string, space: char -> bool)
    requires s != [] && !space(s[0]) && !space(s[|s| - 1])
    ensures Trim(s, space) == s
  {
  }

  /** Characters of `space` before and after the text do not change what is trimmed. */
  lemma TrimSurrounded(a: string, s: string, b: string, space: char -> bool)
    requires forall k :: 0 <= k < |a| ==> space(a[k])
    requires forall k :: 0 <= k < |b| ==> space(b[k])
    ensures Trim(a + s + b, space) == Trim(s, space)
  {
    assert a + s + b == a + (s + b);
    TrimStartSpaces(a, s + b, space);
    if TrimStart(s, space) != [] {
      TrimStartAppend(s, b, space);
      TrimEndSpaces(TrimStart(s, space), b, space);
    } else {
      assert forall k :: 0 <= k < |s| ==> space(s[k]);
      assert forall k :: 0 <= k < |a + s + b| ==> space((a + s + b)[k]);
    }
  }

  lemma {:induction false} TrimStartSpaces(a: string, s: string, space: char -> bool)
    requires forall k :: 0 <= k < |a| ==> space(a[k])
    ensures TrimStart(a + s, space) == TrimStart(s, space)
    decreases |a|
  {
    if a != [] {
      assert (a + s)[0] == a[0];
      assert (a + s)[1..] == a[1..] + s;
      TrimStartSpaces(a[1..], s, space);
    } else {
      assert a + s == s;
    }
  }

  lemma {:induction false} TrimStartAppend(s: string, b: string, space: char -> bool)
    requires TrimStart(s, space) != []
    ensures TrimStart(s + b, space) == TrimStart(s, space) + b
    decreases |s|
  {
    assert (s + b)[0] == s[0];
    if space(s[0]) {
      assert (s + b)[1..] == s[1..] + b;
      TrimStartAppend(s[1..], b, space);
    }
  }

  lemma {:induction false} TrimEndSpaces(u: string, b: string, space: char -> bool)
    requires forall k :: 0 <= k < |b| ==> space(b[k])
    ensures TrimEnd(u + b, space) == TrimEnd(u, space)
    decreases |b|
  {
    if b != [] {
      assert (u + b)[|u + b| - 1] == b[|b| - 1];
      assert (u + b)[..|u + b| - 1] == u + b[..|b| - 1];
      TrimEndSpaces(u, b[..|b| - 1], space);
    } else {
      assert u + b == u;
    }
  }

  // ---------------------------------------------------------------------------
  // Lower-casing
  // ---------------------------------------------------------------------------

  /**
   * `c.lower()` for the characters whose lower case is an ASCII letter:
   * A-Z and the Kelvin sign U+212A, which becomes "k". Every other
   * character is kept as it is.
   */
  function LowerChar(c: char): char
  {
    if 'A' <= c <= 'Z' then (c as int + 32) as char
    else if c == '\U{212A}' then 'k'
    else c
  }

  /** Python's `s.lower()`, character by character, with `LowerChar`. */
  function Lower(s: string): (r: string)
    ensures |r| == |s|
    ensures forall k :: 0 <= k < |s| ==> r[k] == LowerChar(s[k])
  {
    seq(|s|, k requires 0 <= k < |s| => LowerChar(s[k]))
  }

  // ---------------------------------------------------------------------------
  // int(...) on text, and str(...) of a natural number
  // ---------------------------------------------------------------------------

  /** The ASCII digits `str(n)` writes. */
  predicate IsDigit(c: char) { '0' <= c <= '9' }

  predicate AllDigits(s: string) { forall k :: 0 <= k < |s| ==> IsDigit(s[k]) }

  /**
   * The whitespace `int()` skips before and after the number: ASCII space,
   * tab, line feed, vertical tab, form feed and carriage return, and every
   * non-ASCII whitespace character. The separators 0x1C-0x1F, which
   * `isspace()` accepts, are not skipped.
   */
  predicate IsIntSpace(c: char)
  {
    IsSpace(c) && !('\U{1C}' <= c <= '\U{1F}')
  }

  /** The number of blocks of ten decimal digits beyond ASCII in Unicode 15.0. */
  const DigitBlocks := 67

  /**
   * The code point of the zero of each block of ten decimal digits beyond
   * ASCII in Unicode 15.0 (general category Nd), in increasing order.
   */
  function BlockZero(i: nat): int
    requires i < DigitBlocks
  {
    match i
    case 0 => 0x660 case 1 => 0x6F0 case 2 => 0x7C0 case 3 => 0x966 case 4 => 0x9E6 case 5 => 0xA66
    case 6 => 0xAE6 case 7 => 0xB66 case 8 => 0xBE6 case 9 => 0xC66 case 10 => 0xCE6 case 11 => 0xD66
    case 12 => 0xDE6 case 13 => 0xE50 case 14 => 0xED0 case 15 => 0xF20 case 16 => 0x1040 case 17 => 0x1090
    case 18 => 0x17E0 case 19 => 0x1810 case 20 => 0x1946 case 21 => 0x19D0 case 22 => 0x1A80 case 23 => 0x1A90
    case 24 => 0x1B50 case 25 => 0x1BB0 case 26 => 0x1C40 case 27 => 0x1C50 case 28 => 0xA620 case 29 => 0xA8D0
    case 30 => 0xA900 case 31 => 0xA9D0 case 32 => 0xA9F0 case 33 => 0xAA50 case 34 => 0xABF0 case 35 => 0xFF10
    case 36 => 0x104A0 case 37 => 0x10D30 case 38 => 0x11066 case 39 => 0x110F0 case 40 => 0x11136 case 41 => 0x111D0
    case 42 => 0x112F0 case 43 => 0x11450 case 44 => 0x114D0 case 45 => 0x11650 case 46 => 0x116C0 case 47 => 0x11730
    case 48 => 0x118E0 case 49 => 0x11950 case 50 => 0x11C50 case 51 => 0x11D50 case 52 => 0x11DA0 case 53 => 0x11F50
    case 54 => 0x16A60 case 55 => 0x16AC0 case 56 => 0x16B50 case 57 => 0x1D7CE case 58 => 0x1D7D8 case 59 => 0x1D7E2
    case 60 => 0x1D7EC case 61 => 0x1D7F6 case 62 => 0x1E140 case 63 => 0x1E2F0 case 64 => 0x1E4F0 case 65 => 0x1E950
    case _ => 0x1FBF0
  }

  /**
   * `unicodedata.decimal(c)`: the value of a decimal digit of any script,
   * None for every other character.
   */
  function DecimalValue(c: char): (r: Option<nat>)
    ensures r.Some? ==> r.value < 10
    ensures IsDigit(c) ==> r == Some(c as int - '0' as int)
  {
    if IsDigit(c) then Some(c as int - '0' as int) else DecimalFrom(c, 0)
  }

  /** The search of `DecimalValue` from block `i` on; the blocks are sorted, so it stops at the first zero above `c`. */
  function DecimalFrom(c: char, i: nat): (r: Option<nat>)
    requires i <= DigitBlocks
    ensures r.Some? ==> r.value < 10
    decreases DigitBlocks - i
  {
    if i == DigitBlocks then None
    else if c as int < BlockZero(i) then None
    else if c as int < BlockZero(i) + 10 then Some(c as int - BlockZero(i))
    else DecimalFrom(c, i + 1)
  }

  predicate IsDecimal(c: char) { DecimalValue(c).Some? }

  predicate DecimalOrUnderscore(c: char) { IsDecimal(c) || c == '_' }

  /**
   * The digits of a base-10 literal as `int()` reads them: decimal digits of
   * any script, with single underscores allowed between two digits (none
   * first, none last, never two in a row).
   */
  predicate IsDigitGroups(s: string)
  {
    && s != [] && s[0] != '_' && s[|s| - 1] != '_'
    && (forall k :: 0 <= k < |s| ==> DecimalOrUnderscore(s[k]))
    && (forall j, k :: 0 <= j < |s| && 0 <= k < |s| && k == j + 1 ==> !(s[j] == '_' && s[k] == '_'))
  }

  /** The value of digits, most significant first; underscores carry no value. */
  function DigitsValue(s: string): nat
    requires forall k :: 0 <= k < |s| ==> DecimalOrUnderscore(s[k])
  {
    if s == [] then 0
    else if s[|s| - 1] == '_' then DigitsValue(s[..|s| - 1])
    else
      assert DecimalOrUnderscore(s[|s| - 1]);
      DigitsValue(s[..|s| - 1]) * 10 + DecimalValue(s[|s| - 1]).value
  }

  /** `int()` of text without surrounding whitespace: an optional sign, then digit groups. */
  function ParseLiteral(t: string): (r: Result<int>)
    ensures r.Err? ==> r.error == ValueError
  {
    if t != [] && (t[0] == '+' || t[0] == '-') then
      if IsDigitGroups(t[1..]) then
        Ok(if t[0] == '-' then -(DigitsValue(t[1..]) as int) else DigitsValue(t[1..]))
      else Err(ValueError)
    else if IsDigitGroups(t) then Ok(DigitsValue(t))
    else Err(ValueError)
  }

  /**
   * Python's `int(s)` in base 10: whitespace around an optional sign and
   * digit groups. Anything else raises ValueError.
   */
  function ParseInt(s: string): (r: Result<int>)
    ensures r.Err? ==> r.error == ValueError
  {
    ParseLiteral(Trim(s, IsIntSpace))
  }

  /** `int()` succeeds exactly on whitespace, an optional sign and digit groups, and only a "-" makes the value negative. */
  lemma ParseIntAccepts(s: string)
    ensures var t := Trim(s, IsIntSpace);
      ParseInt(s).Ok? <==> (IsDigitGroups(t) || (t != [] && (t[0] == '+' || t[0] == '-') && IsDigitGroups(t[1..])))
    ensures ParseInt(s).Ok? && ParseInt(s).value < 0 ==> Trim(s, IsIntSpace)[0] == '-'
  {
    var t := Trim(s, IsIntSpace);
    if t != [] && (t[0] == '+' || t[0] == '-') {
      assert !IsDecimal(t[0]);
    }
  }

  /** Whitespace before and after the text does not change what `int()` returns: `int(" 1\n") == int("1")`. */
  lemma ParseIntSurrounded(a: string, s: string, b: string)
    requires forall k :: 0 <= k < |a| ==> IsIntSpace(a[k])
    requires forall k :: 0 <= k < |b| ==> IsIntSpace(b[k])
    ensures ParseInt(a + s + b) == ParseInt(s)
  {
    TrimSurrounded(a, s, b, IsIntSpace);
  }

  /** ASCII digits form one digit group. */
  lemma DigitsAreGroups(s: string)
    requires s != [] && AllDigits(s)
    ensures IsDigitGroups(s)
  {
    assert forall k :: 0 <= k < |s| ==> DecimalOrUnderscore(s[k]);
  }

  /** Digit groups without a sign are read as they stand. */
  lemma LiteralOfGroups(t: string)
    requires IsDigitGroups(t) && t != [] && t[0] != '+' && t[0] != '-'
    ensures ParseLiteral(t) == Ok(DigitsValue(t))
  {
  }

  /** A minus sign before digit groups negates their value. */
  lemma LiteralOfNegative(s: string, t: string)
    requires IsDigitGroups(s) && t == "-" + s
    ensures ParseLiteral(t) == Ok(-(DigitsValue(s) as int))
  {
    assert t[0] == '-' && t[1..] == s;
  }

  /** `int()` of ASCII digits, and of a minus sign followed by them. */
  lemma ParseDigits(s: string)
    requires s != [] && AllDigits(s)
    ensures ParseInt(s) == Ok(DigitsValue(s))
    ensures ParseInt("-" + s) == Ok(-(DigitsValue(s) as int))
  {
    DigitsAreGroups(s);
    TrimKeeps(s, IsIntSpace);
    assert IsDigit(s[0]);
    LiteralOfGroups(s);
    var t := "-" + s;
    TrimKeeps(t, IsIntSpace);
    LiteralOfNegative(s, t);
  }

  /** An underscore between two digits is ignored: `int("1_0") == int("10")`. */
  lemma ParseIntUnderscore(x: string, y: string)
    requires x != [] && AllDigits(x) && y != [] && AllDigits(y)
    ensures ParseInt(x + "_" + y) == ParseInt(x + y)
  {
    var s := x + "_" + y;
    assert IsDigit(s[0]) && IsDigit(s[|s| - 1]);
    assert IsDigitGroups(s) by {
      assert forall k :: 0 <= k < |s| ==> DecimalOrUnderscore(s[k]);
      assert forall k :: 0 <= k < |s| && s[k] == '_' ==> k == |x|;
    }
    ParseGroups(s);
    assert AllDigits(x + y);
    ParseDigits(x + y);
    DigitsValueUnderscore(x, y);
  }

  /** Digit groups with no sign and no surrounding space read as their value. */
  lemma ParseGroups(s: string)
    requires IsDigitGroups(s) && s[0] != '+' && s[0] != '-'
    requires !IsIntSpace(s[0]) && !IsIntSpace(s[|s| - 1])
    ensures ParseInt(s) == Ok(DigitsValue(s))
  {
    TrimKeeps(s, IsIntSpace);
    LiteralOfGroups(s);
  }

  lemma {:induction false} DigitsValueUnderscore(x: string, y: string)
    requires AllDigits(x) && AllDigits(y)
    ensures DigitsValue(x + "_" + y) == DigitsValue(x + y)
    decreases |y|
  {
    var s := x + "_" + y;
    assert forall k :: 0 <= k < |s| ==> DecimalOrUnderscore(s[k]);
    if y == [] {
      assert s[..|s| - 1] == x + y;
    } else {
      var y' := y[..|y| - 1];
      assert s[..|s| - 1] == x + "_" + y';
      assert (x + y)[..|x + y| - 1] == x + y';
      DigitsValueUnderscore(x, y');
    }
  }

  /** Text with an underscore first, last or twice in a row is a ValueError. */
  lemma BadUnderscoreRejected(s: string, j: nat)
    requires s != [] && !IsIntSpace(s[0]) && !IsIntSpace(s[|s| - 1]) && s[0] != '+' && s[0] != '-'
    requires s[0] == '_' || s[|s| - 1] == '_' || (j + 1 < |s| && s[j] == '_' && s[j + 1] == '_')
    ensures ParseInt(s).Err?
  {
    TrimKeeps(s, IsIntSpace);
  }

  /** `int("1__0")`, `int("_1")` and `int("1_")` raise ValueError. */
  lemma ParseIntBadUnderscore(a: string, b: string, c: string)
    requires a == "1__0" && b == "_1" && c == "1_"
    ensures ParseInt(a).Err? && ParseInt(b).Err? && ParseInt(c).Err?
  {
    BadUnderscoreRejected(a, 1);
    BadUnderscoreRejected(b, 0);
    BadUnderscoreRejected(c, 0);
  }

  /** Two decimal digits of any script read as a two-digit number. */
  lemma ParseTwoDigits(c: char, d: char)
    requires IsDecimal(c) && IsDecimal(d) && !IsIntSpace(c) && !IsIntSpace(d)
    ensures ParseInt([c, d]) == Ok(10 * DecimalValue(c).value + DecimalValue(d).value)
  {
    var s := [c, d];
    assert c != '_' && d != '_';
    assert IsDigitGroups(s);
    TrimKeeps(s, IsIntSpace);
    LiteralOfGroups(s);
    assert s[..1] == [c];
    assert DigitsValue([c]) == DecimalValue(c).value by {
      assert [c][..0] == [];
    }
  }

  /** Digits of other scripts count: `int("\u0661\u0662")`, ARABIC-INDIC ONE and TWO, is 12. */
  lemma ParseIntOtherScript(s: string)
    requires s == "\U{661}\U{662}"
    ensures ParseInt(s) == Ok(12)
  {
    var one, two := '\U{661}', '\U{662}';
    assert DecimalValue(one) == Some(1) && DecimalValue(two) == Some(2);
    ParseTwoDigits(one, two);
    assert s == [one, two];
  }

  /** Python's `str(n)` for a natural number. */
  function NatToString(n: nat): (r: string)
    ensures r != [] && AllDigits(r)
    ensures |r| > 1 ==> r[0] != '0'
  {
    if n < 10 then ['0' + n as char]
    else NatToString(n / 10) + ['0' + (n % 10) as char]
  }

  /** `int(str(n)) == n`. */
  lemma {:induction false} ParseNatToString(n: nat)
    ensures ParseInt(NatToString(n)) == Ok(n)
  {
    var s := NatToString(n);
    DigitsOfNatToString(n);
    ParseDigits(s);
  }

  lemma {:induction false} DigitsOfNatToString(n: nat)
    ensures DigitsValue(NatToString(n)) == n
  {
    if n >= 10 {
      DigitsOfNatToString(n / 10);
      var s := NatToString(n);
      assert s[..|s| - 1] == NatToString(n / 10);
    }
  }

  /** Leading zeros do not change the value: `int("007") == 7`. */
  lemma {:induction false} LeadingZeroIgnored(s: string)
    requires forall k :: 0 <= k < |s| ==> DecimalOrUnderscore(s[k])
    ensures DigitsValue(['0'] + s) == DigitsValue(s)
    decreases |s|
  {
    if s != [] {
      var t := ['0'] + s;
      assert t[..|t| - 1] == ['0'] + s[..|s| - 1];
      LeadingZeroIgnored(s[..|s| - 1]);
    }
  }

  /** Any run of leading zeros does not change the value. */
  lemma {:induction false} LeadingZerosIgnored(z: string, s: string)
    requires forall k :: 0 <= k < |z| ==> z[k] == '0'
    requires forall k :: 0 <= k < |s| ==> DecimalOrUnderscore(s[k])
    ensures forall k :: 0 <= k < |z + s| ==> DecimalOrUnderscore((z + s)[k])
    ensures DigitsValue(z + s) == DigitsValue(s)
    decreases |z|
  {
    assert forall k :: 0 <= k < |z + s| ==> DecimalOrUnderscore((z + s)[k]) by {
      assert DecimalOrUnderscore('0');
    }
    if z != [] {
      LeadingZerosIgnored(z[1..], s);
      LeadingZeroIgnored(z[1..] + s);
      assert z + s == ['0'] + (z[1..] + s);
    } else {
      assert z + s == s;
    }
  }
}
