/**
 * Character classes and string operations the JavaScript sources rely on:
 * the ASCII classes of their regular expressions, `\s` / `String.prototype.trim`
 * whitespace, `toLowerCase` restricted to ASCII, `includes`, and truthiness of
 * optional strings.
 */
module Text {
  import opened Wrappers

  predicate IsLower(c: char) { 'a' <= c <= 'z' }
  predicate IsUpper(c: char) { 'A' <= c <= 'Z' }
  predicate IsDigit(c: char) { '0' <= c <= '9' }
  predicate IsHexDigit(c: char) { IsDigit(c) || 'a' <= c <= 'f' || 'A' <= c <= 'F' }

  /** The regular-expression class `[a-z0-9]`. */
  predicate IsLowerAlnum(c: char) { IsLower(c) || IsDigit(c) }

  /** ECMAScript WhiteSpace and LineTerminator: what `\s` matches and `trim` removes. */
  predicate IsSpace(c: char) {
    || c == ' ' || c == '\t' || c == '\n' || c == '\U{000B}' || c == '\U{000C}' || c == '\r'
    || c == '\U{00A0}' || c == '\U{1680}' || '\U{2000}' <= c <= '\U{200A}'
    || c == '\U{2028}' || c == '\U{2029}' || c == '\U{202F}' || c == '\U{205F}'
    || c == '\U{3000}' || c == '\U{FEFF}'
  }

  function LowerChar(c: char): (r: char)
    ensures IsUpper(c) ==> IsLower(r) && r as int == c as int + 32
    ensures !IsUpper(c) ==> r == c
  {
    if IsUpper(c) then (c as int + 32) as char else c
  }

  /** `toLowerCase`, on ASCII letters only. */
  function Lower(s: string): (r: string)
    ensures |r| == |s|
    ensures forall i :: 0 <= i < |s| ==> r[i] == LowerChar(s[i])
  {
    seq(|s|, i requires 0 <= i < |s| => LowerChar(s[i]))
  }

  /** Lower-casing is idempotent. */
  lemma {:induction false} LowerTwice(s: string)
    ensures Lower(Lower(s)) == Lower(s)
  {
  }

  /** `s.includes(sub)`. */
  predicate Contains(s: string, sub: string) {
    exists i | 0 <= i <= |s| - |sub| :: OccursAt(s, sub, i)
  }

  predicate OccursAt(s: string, sub: string, i: int) {
    0 <= i <= |s| - |sub| && s[i..i + |sub|] == sub
  }

  /** JavaScript truthiness of a possibly-absent string: present and non-empty. */
  predicate Truthy(s: Option<string>) {
    s.Some? && s.value != ""
  }

  function TrimStart(s: string): (r: string)
    ensures |r| <= |s| && r == s[|s| - |r|..]
    ensures r == [] || !IsSpace(r[0])
    ensures forall i :: 0 <= i < |s| - |r| ==> IsSpace(s[i])
  {
    if |s| > 0 && IsSpace(s[0]) then TrimStart(s[1..]) else s
  }

  function TrimEnd(s: string): (r: string)
    ensures |r| <= |s| && r == s[..|r|]
    ensures r == [] || !IsSpace(r[|r| - 1])
    ensures forall i :: |r| <= i < |s| ==> IsSpace(s[i])
  {
    if |s| > 0 && IsSpace(s[|s| - 1]) then TrimEnd(s[..|s| - 1]) else s
  }

  /**
   * `s.trim()`: the slice of `s` left after removing whitespace at both ends;
   * everything removed is whitespace, and the ends of the result are not.
   */
  function Trim(s: string): (r: string)
    ensures |r| <= |s|
    ensures r == [] || (!IsSpace(r[0]) && !IsSpace(r[|r| - 1]))
    ensures exists a :: TrimmedSlice(s, r, a)
  {
    var t := TrimStart(s);
    var r := TrimEnd(t);
    var a := |s| - |t|;
    assert TrimmedSlice(s, r, a);
    r
  }

  /** `r` is `s[a..a + |r|]` and every character of `s` outside that slice is whitespace. */
  predicate TrimmedSlice(s: string, r: string, a: int) {
    && 0 <= a <= |s| - |r| && r == s[a..a + |r|]
    && (forall i :: 0 <= i < a ==> IsSpace(s[i]))
    && (forall i :: a + |r| <= i < |s| ==> IsSpace(s[i]))
  }

  /** A string with no whitespace at either end is its own trim. */
  lemma {:induction false} TrimNoop(s: string)
    requires s == [] || (!IsSpace(s[0]) && !IsSpace(s[|s| - 1]))
    ensures Trim(s) == s
  {
  }

  /** Number of occurrences of `c` in `s`. */
  function CountChar(s: string, c: char): (n: nat)
    ensures n <= |s|
    ensures n == 0 <==> forall i :: 0 <= i < |s| ==> s[i] != c
  {
    if s == [] then 0 else (if s[0] == c then 1 else 0) + CountChar(s[1..], c)
  }

  /** Counting distributes over concatenation. */
  lemma {:induction false} CountCharAppend(a: string, b: string, c: char)
    ensures CountChar(a + b, c) == CountChar(a, c) + CountChar(b, c)
  {
    if a == [] {
      assert a + b == b;
    } else {
      assert (a + b)[0] == a[0] && (a + b)[1..] == a[1..] + b;
      CountCharAppend(a[1..], b, c);
    }
  }

  /** The character classes whose runs the slug generators collapse. */
  datatype CharClass =
    | NotLowerAlnum  // `[^a-z0-9]`
    | Space          // `\s`
    | Hyphen         // `-`

  predicate InClass(k: CharClass, ch: char) {
    match k
    case NotLowerAlnum => !IsLowerAlnum(ch)
    case Space => IsSpace(ch)
    case Hyphen => ch == '-'
  }

  /** `s` without its longest prefix of characters of class `k`. */
  function DropRun(s: string, k: CharClass): (r: string)
    ensures |r| <= |s| && r == s[|s| - |r|..]
    ensures r == [] || !InClass(k, r[0])
  {
    if |s| > 0 && InClass(k, s[0]) then DropRun(s[1..], k) else s
  }

  /** Everything `DropRun` removes is in the class. */
  lemma {:induction false} DropRunDrops(s: string, k: CharClass)
    ensures forall i :: 0 <= i < |s| - |DropRun(s, k)| ==> InClass(k, s[i])
  {
    if |s| > 0 && InClass(k, s[0]) {
      DropRunDrops(s[1..], k);
      assert forall i :: 1 <= i < |s| ==> s[1..][i - 1] == s[i];
    }
  }

  /**
   * `s.replace(/[class]+/g, c)`: every maximal run of characters of class `k`
   * becomes one `c`; other characters are kept.
   */
  function ReplaceRuns(s: string, k: CharClass, c: char): (r: string)
    ensures |r| <= |s|
    ensures r == [] <==> s == []
    ensures s != [] && !InClass(k, s[0]) ==> r[0] == s[0]
    decreases |s|
  {
    if s == [] then []
    else if InClass(k, s[0]) then [c] + ReplaceRuns(DropRun(s[1..], k), k, c)
    else [s[0]] + ReplaceRuns(s[1..], k, c)
  }

  /** Dropping a run stops at the first character outside the class, whatever follows it. */
  lemma {:induction false} DropRunAppend(a: string, b: string, k: CharClass)
    requires DropRun(a, k) != [] || b == [] || !InClass(k, b[0])
    ensures DropRun(a + b, k) == DropRun(a, k) + b
    decreases |a|
  {
    if a == [] {
      assert a + b == b;
    } else if InClass(k, a[0]) {
      assert (a + b)[0] == a[0] && (a + b)[1..] == a[1..] + b;
      DropRunAppend(a[1..], b, k);
    }
  }

  /** A run of class characters, however long, becomes a single `c`. */
  lemma {:induction false} ReplaceRunsRun(s: string, k: CharClass, c: char)
    requires s != [] && forall i :: 0 <= i < |s| ==> InClass(k, s[i])
    ensures ReplaceRuns(s, k, c) == [c]
  {
    DropRunAll(s[1..], k);
  }

  /** A string wholly of the class is dropped entirely. */
  lemma {:induction false} DropRunAll(s: string, k: CharClass)
    requires forall i :: 0 <= i < |s| ==> InClass(k, s[i])
    ensures DropRun(s, k) == []
    decreases |s|
  {
    if s != [] {
      DropRunAll(s[1..], k);
    }
  }

  /**
   * Replacing runs distributes over a concatenation that does not cut a run
   * in two, that is, where the first part ends or the second begins outside
   * the class. With `ReplaceRunsRun` and `ReplaceRunsNoop` this fixes where
   * every `c` goes: one for each maximal run, in its place.
   */
  lemma {:induction false} ReplaceRunsAppend(a: string, b: string, k: CharClass, c: char)
    requires a == [] || b == [] || !InClass(k, a[|a| - 1]) || !InClass(k, b[0])
    ensures ReplaceRuns(a + b, k, c) == ReplaceRuns(a, k, c) + ReplaceRuns(b, k, c)
    decreases |a|
  {
    if a == [] {
      assert a + b == b;
    } else {
      var t := NextTail(a, b, k);
      ReplaceRunsAppend(t, b, k, c);
      ReplaceRunsAppendStep(a, b, t, k, c);
    }
  }

  /** The tail `ReplaceRuns` continues with after the head of `a`, and what it keeps of the boundary condition. */
  lemma {:induction false} NextTail(a: string, b: string, k: CharClass) returns (t: string)
    requires a != []
    requires b == [] || !InClass(k, a[|a| - 1]) || !InClass(k, b[0])
    ensures t == (if InClass(k, a[0]) then DropRun(a[1..], k) else a[1..]) && |t| < |a|
    ensures t == [] || b == [] || !InClass(k, t[|t| - 1]) || !InClass(k, b[0])
    ensures DropRun(a[1..] + b, k) == DropRun(a[1..], k) + b || !InClass(k, a[0])
  {
    if InClass(k, a[0]) {
      t := DropRun(a[1..], k);
      DropRunTail(a, b, k);
    } else {
      t := a[1..];
      assert t != [] ==> t[|t| - 1] == a[|a| - 1];
    }
  }

  /** One step of `ReplaceRunsAppend`: from the tail `t` that `ReplaceRuns` continues with to the whole. */
  lemma {:induction false} ReplaceRunsAppendStep(a: string, b: string, t: string, k: CharClass, c: char)
    requires a != [] && t == (if InClass(k, a[0]) then DropRun(a[1..], k) else a[1..])
    requires DropRun(a[1..] + b, k) == DropRun(a[1..], k) + b || !InClass(k, a[0])
    requires ReplaceRuns(t + b, k, c) == ReplaceRuns(t, k, c) + ReplaceRuns(b, k, c)
    ensures ReplaceRuns(a + b, k, c) == ReplaceRuns(a, k, c) + ReplaceRuns(b, k, c)
  {
    var h := if InClass(k, a[0]) then [c] else [a[0]];
    var ab := a + b;
    TailAppend(a, b);
    assert ReplaceRuns(a, k, c) == h + ReplaceRuns(t, k, c);
    assert ReplaceRuns(ab, k, c) == h + ReplaceRuns(t + b, k, c);
    AppendAssoc(h, ReplaceRuns(t, k, c), ReplaceRuns(b, k, c));
  }

  lemma {:induction false} AppendAssoc<T>(x: seq<T>, y: seq<T>, z: seq<T>)
    ensures x + (y + z) == (x + y) + z
  {
  }

  lemma {:induction false} TailAppend(a: string, b: string)
    requires a != []
    ensures (a + b)[0] == a[0] && (a + b)[1..] == a[1..] + b
  {
  }

  /** A run at the head of `a` ends inside `a` or exactly where `a` does, so it is dropped in `a + b` as in `a`. */
  lemma {:induction false} DropRunTail(a: string, b: string, k: CharClass)
    requires a != [] && InClass(k, a[0])
    requires b == [] || !InClass(k, a[|a| - 1]) || !InClass(k, b[0])
    ensures var d := DropRun(a[1..], k);
            && |d| < |a| && (d == [] || d[|d| - 1] == a[|a| - 1])
            && DropRun(a[1..] + b, k) == d + b
  {
    var t := a[1..];
    DropRunDrops(t, k);
    assert t != [] ==> t[|t| - 1] == a[|a| - 1];
    DropRunAppend(t, b, k);
  }

  /** A class character followed by another character: the run becomes `c`. */
  lemma {:induction false} ReplaceRunsPair(x: char, y: char, k: CharClass, c: char)
    requires InClass(k, x) && !InClass(k, y)
    ensures ReplaceRuns([x, y], k, c) == [c, y]
  {
    assert [x, y][1..] == [y];
    assert DropRun([y], k) == [y];
    ReplaceRunsKept(y, k, c);
  }

  lemma {:induction false} ReplaceRunsKept(y: char, k: CharClass, c: char)
    requires !InClass(k, y)
    ensures ReplaceRuns([y], k, c) == [y]
  {
    assert [y][1..] == [];
  }

  /** Each character `ReplaceRuns` produces is `c` or comes from `s`. */
  lemma {:induction false} ReplaceRunsFrom(s: string, k: CharClass, c: char)
    ensures forall ch :: ch in ReplaceRuns(s, k, c) ==> ch == c || ch in s
    decreases |s|
  {
    if s != [] {
      var rest := if InClass(k, s[0]) then DropRun(s[1..], k) else s[1..];
      var head := if InClass(k, s[0]) then c else s[0];
      assert ReplaceRuns(s, k, c) == [head] + ReplaceRuns(rest, k, c);
      ReplaceRunsFrom(rest, k, c);
      assert forall ch :: ch in rest ==> ch in s by {
        assert rest == s[|s| - |rest|..];
      }
    }
  }

  /** Each character `ReplaceRuns` produces is `c` or outside the class. */
  lemma {:induction false} ReplaceRunsOutside(s: string, k: CharClass, c: char)
    ensures forall ch :: ch in ReplaceRuns(s, k, c) ==> ch == c || !InClass(k, ch)
    decreases |s|
  {
    if s != [] {
      var rest := if InClass(k, s[0]) then DropRun(s[1..], k) else s[1..];
      var head := if InClass(k, s[0]) then c else s[0];
      assert ReplaceRuns(s, k, c) == [head] + ReplaceRuns(rest, k, c);
      ReplaceRunsOutside(rest, k, c);
    }
  }

  /** When `c` is itself in the class, a `c` produced by `ReplaceRuns` is never followed by a class character. */
  lemma {:induction false} ReplaceRunsSeparated(s: string, k: CharClass, c: char)
    requires InClass(k, c)
    ensures forall i :: 0 <= i < |ReplaceRuns(s, k, c)| - 1 && ReplaceRuns(s, k, c)[i] == c ==>
              !InClass(k, ReplaceRuns(s, k, c)[i + 1])
    decreases |s|
  {
    if s != [] {
      var rest := if InClass(k, s[0]) then DropRun(s[1..], k) else s[1..];
      var t := ReplaceRuns(rest, k, c);
      var r := ReplaceRuns(s, k, c);
      assert r == [r[0]] + t;
      ReplaceRunsSeparated(rest, k, c);
      forall i | 0 <= i < |r| - 1 && r[i] == c ensures !InClass(k, r[i + 1]) {
        assert r[i + 1] == t[i];
        if i > 0 {
          assert r[i] == t[i - 1];
        } else {
          assert t != [] && rest != [];
          assert t[0] == rest[0];
        }
      }
    }
  }

  /**
   * A string in which every character of the class is already `c` and no two
   * of them are adjacent is left unchanged by `ReplaceRuns`.
   */
  lemma {:induction false} ReplaceRunsNoop(s: string, k: CharClass, c: char)
    requires forall i :: 0 <= i < |s| && InClass(k, s[i]) ==> s[i] == c
    requires forall i :: 0 <= i < |s| - 1 && InClass(k, s[i]) ==> !InClass(k, s[i + 1])
    ensures ReplaceRuns(s, k, c) == s
    decreases |s|
  {
    if s != [] {
      ReplaceRunsNoop(s[1..], k, c);
      if InClass(k, s[0]) {
        assert DropRun(s[1..], k) == s[1..];
      }
    }
  }

  /** `s.replace(/[^class]/g, '')`: the characters of `s` that satisfy `keep`, in order. */
  function Filter(s: string, keep: char -> bool): (r: string)
    ensures |r| <= |s|
    ensures forall i :: 0 <= i < |r| ==> keep(r[i]) && r[i] in s
    ensures (forall i :: 0 <= i < |s| ==> keep(s[i])) ==> r == s
  {
    if s == [] then []
    else
      var rest := Filter(s[1..], keep);
      assert forall x :: x in s[1..] ==> x in s;
      if keep(s[0]) then [s[0]] + rest else rest
  }

  /** The filter keeps every kept character as often as it occurs, and no other. */
  lemma {:induction false} FilterCount(s: string, keep: char -> bool)
    ensures forall ch :: multiset(Filter(s, keep))[ch] == if keep(ch) then multiset(s)[ch] else 0
  {
    if s != [] {
      FilterCount(s[1..], keep);
      assert s == [s[0]] + s[1..];
    }
  }

  /** The filter keeps the order of `s`: it distributes over concatenation. */
  lemma {:induction false} FilterAppend(a: string, b: string, keep: char -> bool)
    ensures Filter(a + b, keep) == Filter(a, keep) + Filter(b, keep)
  {
    if a == [] {
      assert a + b == b;
    } else {
      var h := if keep(a[0]) then [a[0]] else [];
      assert a + b == [a[0]] + (a[1..] + b);
      assert a == [a[0]] + a[1..];
      calc {
        Filter(a + b, keep);
      == { FilterCons(a[0], a[1..] + b, keep); }
        h + Filter(a[1..] + b, keep);
      == { FilterAppend(a[1..], b, keep); }
        h + (Filter(a[1..], keep) + Filter(b, keep));
      == { AppendAssoc(h, Filter(a[1..], keep), Filter(b, keep)); }
        (h + Filter(a[1..], keep)) + Filter(b, keep);
      == { FilterCons(a[0], a[1..], keep); }
        Filter(a, keep) + Filter(b, keep);
      }
    }
  }

  lemma {:induction false} FilterCons(x: char, s: string, keep: char -> bool)
    ensures Filter([x] + s, keep) == (if keep(x) then [x] else []) + Filter(s, keep)
  {
    assert ([x] + s)[0] == x && ([x] + s)[1..] == s;
  }

  /** Lower-casing works character by character: it distributes over concatenation. */
  lemma {:induction false} LowerAppend(a: string, b: string)
    ensures Lower(a + b) == Lower(a) + Lower(b)
  {
    forall i | 0 <= i < |a| + |b| ensures Lower(a + b)[i] == (Lower(a) + Lower(b))[i] {
      if i < |a| {
        assert (a + b)[i] == a[i];
      } else {
        assert (a + b)[i] == b[i - |a|];
      }
    }
  }

  /** Trimming only removes characters: each character of the result occurs in `s`. */
  lemma {:induction false} TrimKeeps(s: string)
    ensures forall i :: 0 <= i < |Trim(s)| ==> Trim(s)[i] in s
  {
    var a :| TrimmedSlice(s, Trim(s), a);
    forall i | 0 <= i < |Trim(s)| ensures Trim(s)[i] in s {
      assert Trim(s)[i] == s[a + i];
    }
  }

  /** Trimming is idempotent. */
  lemma {:induction false} TrimTwice(s: string)
    ensures Trim(Trim(s)) == Trim(s)
  {
    TrimNoop(Trim(s));
  }

  /** `s.replace(/(^-|-$)/g, '')`: one leading and one trailing '-' removed. */
  function StripEndHyphens(s: string): (r: string)
    ensures |r| <= |s|
    ensures var lo := if |s| > 0 && s[0] == '-' then 1 else 0;
            lo + |r| <= |s| && r == s[lo..lo + |r|]
    ensures r != [] && r[0] == '-' ==> |s| >= 2 && s[0] == '-' && s[1] == '-'
    ensures r != [] && r[|r| - 1] == '-' ==> |s| >= 2 && s[|s| - 1] == '-' && s[|s| - 2] == '-'
  {
    var a := if |s| > 0 && s[0] == '-' then s[1..] else s;
    if |a| > 0 && a[|a| - 1] == '-' then a[..|a| - 1] else a
  }

  /** Stripping the end hyphens of a string that starts with a word only touches its last part. */
  lemma {:induction false} StripAfterWord(p: string, w: string)
    requires p != [] && p[0] != '-' && w != [] && w[0] != '-'
    ensures StripEndHyphens(p + w) == p + StripEndHyphens(w)
  {
    var pw := p + w;
    assert pw[0] == p[0];
    assert pw[|pw| - 1] == w[|w| - 1];
    if w[|w| - 1] == '-' {
      assert pw[..|pw| - 1] == p + w[..|w| - 1];
    }
  }

  /** `s.replace(/[^a-z0-9]/g, '')`: the letters and digits of `s`, in order. */
  function Alnums(s: string): (r: string)
    ensures |r| <= |s|
    ensures forall i :: 0 <= i < |r| ==> IsLowerAlnum(r[i])
  {
    if s == [] then [] else (if IsLowerAlnum(s[0]) then [s[0]] else []) + Alnums(s[1..])
  }

  lemma {:induction false} AlnumsAppend(a: string, b: string)
    ensures Alnums(a + b) == Alnums(a) + Alnums(b)
  {
    if a != [] {
      assert (a + b)[0] == a[0] && (a + b)[1..] == a[1..] + b;
      AlnumsAppend(a[1..], b);
      var x := if IsLowerAlnum(a[0]) then [a[0]] else [];
      calc {
        Alnums(a + b);
        x + Alnums(a[1..] + b);
        x + (Alnums(a[1..]) + Alnums(b));
        { AppendAssoc(x, Alnums(a[1..]), Alnums(b)); }
        (x + Alnums(a[1..])) + Alnums(b);
        Alnums(a) + Alnums(b);
      }
    } else {
      assert a + b == b;
    }
  }

  /** None of the classes whose runs are collapsed holds a letter or digit. */
  lemma {:induction false} ClassNotAlnum(k: CharClass, ch: char)
    requires InClass(k, ch)
    ensures !IsLowerAlnum(ch)
  {
  }

  /** Dropping a run removes no letter or digit. */
  lemma {:induction false} DropRunAlnums(s: string, k: CharClass)
    ensures Alnums(DropRun(s, k)) == Alnums(s)
  {
    if s != [] && InClass(k, s[0]) {
      ClassNotAlnum(k, s[0]);
      DropRunAlnums(s[1..], k);
    }
  }

  /** Replacing runs by a character that is not a letter or digit keeps the letters and digits, in order. */
  lemma {:induction false} ReplaceRunsAlnums(s: string, k: CharClass, c: char)
    requires !IsLowerAlnum(c)
    ensures Alnums(ReplaceRuns(s, k, c)) == Alnums(s)
    decreases |s|
  {
    if s != [] {
      if InClass(k, s[0]) {
        var rest := DropRun(s[1..], k);
        ClassNotAlnum(k, s[0]);
        ReplaceRunsAlnums(rest, k, c);
        DropRunAlnums(s[1..], k);
        AlnumsAppend([c], ReplaceRuns(rest, k, c));
      } else {
        ReplaceRunsAlnums(s[1..], k, c);
        AlnumsAppend([s[0]], ReplaceRuns(s[1..], k, c));
      }
    }
  }

  /** The filter keeps the letters and digits when it keeps every letter and digit. */
  lemma {:induction false} FilterAlnums(s: string, keep: char -> bool)
    requires forall ch :: IsLowerAlnum(ch) ==> keep(ch)
    ensures Alnums(Filter(s, keep)) == Alnums(s)
  {
    if s != [] {
      FilterAlnums(s[1..], keep);
      var rest := Filter(s[1..], keep);
      if keep(s[0]) {
        AlnumsAppend([s[0]], rest);
      }
    }
  }

  /** Stripping the end hyphens removes no letter or digit. */
  lemma {:induction false} StripAlnums(w: string)
    ensures Alnums(StripEndHyphens(w)) == Alnums(w)
  {
    var a := if |w| > 0 && w[0] == '-' then w[1..] else w;
    if |w| > 0 && w[0] == '-' {
      assert w == "-" + a;
      AlnumsAppend("-", a);
    }
    if |a| > 0 && a[|a| - 1] == '-' {
      assert a == a[..|a| - 1] + "-";
      AlnumsAppend(a[..|a| - 1], "-");
    }
  }


  /** A hyphen put before a string that does not start with one is stripped again. */
  lemma {:induction false} StripLeadingHyphen(h: string)
    requires h != [] && h[0] != '-'
    ensures StripEndHyphens("-" + h) == StripEndHyphens(h)
  {
    assert ("-" + h)[1..] == h;
  }

  /** A word outside the class, a non-empty run of it, then a tail that starts outside it: the run becomes one `c`. */
  lemma {:induction false} ReplaceRunsJoin(word: string, sep: string, tail: string, k: CharClass, c: char)
    requires forall i :: 0 <= i < |word| ==> !InClass(k, word[i])
    requires sep != [] && forall i :: 0 <= i < |sep| ==> InClass(k, sep[i])
    requires tail != [] && !InClass(k, tail[0])
    ensures ReplaceRuns(word + (sep + tail), k, c) == (word + [c]) + ReplaceRuns(tail, k, c)
  {
    ReplaceRunsAppend(word, sep + tail, k, c);
    ReplaceRunsNoop(word, k, c);
    ReplaceRunsAppend(sep, tail, k, c);
    ReplaceRunsRun(sep, k, c);
    AppendAssoc(word, [c], ReplaceRuns(tail, k, c));
  }

  lemma {:induction false} LowerJoin(a: string, b: string, c: string)
    ensures Lower(a + b + c) == Lower(a) + (Lower(b) + Lower(c))
  {
    LowerAppend(a + b, c);
    LowerAppend(a, b);
  }
}
