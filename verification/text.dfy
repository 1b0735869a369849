/**
 The two string operations of `java.lang.String` the report formatter relies
 on: `split("\\|")` and literal `replaceAll`, plus space padding.
 */
module Text {

  const Bar: char := '|'

  /** `sep` between consecutive pieces. */
  function Join(pieces: seq<string>, sep: string): string {
    if |pieces| == 0 then ""
    else if |pieces| == 1 then pieces[0]
    else pieces[0] + sep + Join(pieces[1..], sep)
  }

  /** `k` spaces, or none when `k` is not positive (a `for (j = 0; j < k; j++)` loop). */
  function Pad(k: int): (s: string)
    ensures |s| == if k > 0 then k else 0
    ensures forall i :: 0 <= i < |s| ==> s[i] == ' '
  {
    if k <= 0 then "" else seq(k, _ => ' ')
  }

  /** The UTF-16 code units Java spends on a character: two for one outside the Basic Multilingual Plane. */
  function Units(c: char): nat {
    if c as int > 0xFFFF then 2 else 1
  }

  /** `String.length()`: the number of UTF-16 code units, not of characters. */
  function JavaLength(s: string): (n: nat)
    ensures |s| <= n <= 2 * |s|
  {
    if |s| == 0 then 0 else Units(s[0]) + JavaLength(s[1..])
  }

  lemma {:induction false} JavaLengthConcat(a: string, b: string)
    ensures JavaLength(a + b) == JavaLength(a) + JavaLength(b)
    decreases |a|
  {
    if |a| > 0 {
      assert (a + b)[0] == a[0];
      assert (a + b)[1..] == a[1..] + b;
      JavaLengthConcat(a[1..], b);
    } else {
      assert a + b == b;
    }
  }

  /** Spaces take one code unit each. */
  lemma {:induction false} JavaLengthPad(k: int)
    ensures JavaLength(Pad(k)) == if k > 0 then k else 0
    decreases if k > 0 then k else 0
  {
    if k > 0 {
      assert Pad(k)[1..] == Pad(k - 1);
      JavaLengthPad(k - 1);
    }
  }

  // ---------------------------------------------------------------------------
  // split on '|'
  // ---------------------------------------------------------------------------

  /** Every piece between bars, empty pieces included: the split before Java drops anything. */
  function Fields(s: string): (r: seq<string>)
    ensures |r| >= 1
    ensures forall k :: 0 <= k < |r| ==> Bar !in r[k]
    ensures Join(r, [Bar]) == s
  {
    if |s| == 0 then [""]
    else if s[0] == Bar then
      var rest := Fields(s[1..]);
      assert s == [Bar] + s[1..];
      [""] + rest
    else
      var rest := Fields(s[1..]);
      var r := [[s[0]] + rest[0]] + rest[1..];
      assert r[1..] == rest[1..];
      if |rest| == 1 then r
      else
        assert rest == [rest[0]] + rest[1..];
        r
  }

  /** Drops the empty strings at the end, as `split` with limit 0 does. */
  function DropTrailingEmpty(fs: seq<string>): (r: seq<string>)
    ensures r <= fs
    ensures |r| > 0 ==> r[|r| - 1] != ""
    ensures forall k :: |r| <= k < |fs| ==> fs[k] == ""
  {
    if |fs| == 0 then []
    else if fs[|fs| - 1] == "" then DropTrailingEmpty(fs[..|fs| - 1])
    else fs
  }

  /**
   `s.split("\\|")`: a string with no bar is returned whole (so the empty
   string splits to one empty field); otherwise the pieces between bars with
   the trailing empty ones removed, which leaves nothing for a string made of
   bars alone.
   */
  function Split(s: string): (r: seq<string>)
    ensures forall k :: 0 <= k < |r| ==> Bar !in r[k]
    ensures Bar !in s ==> r == [s]
    ensures Bar in s ==> r == DropTrailingEmpty(Fields(s))
  {
    if Bar !in s then [s] else DropTrailingEmpty(Fields(s))
  }

  lemma {:induction false} FieldsWithoutBar(s: string)
    requires Bar !in s
    ensures Fields(s) == [s]
  {
    if |s| > 0 {
      assert Bar !in s[1..] by {
        forall i | 0 <= i < |s[1..]| ensures s[1..][i] != Bar { assert s[1..][i] == s[i + 1]; }
      }
      FieldsWithoutBar(s[1..]);
      assert s == [s[0]] + s[1..];
    }
  }

  lemma {:induction false} FieldsConcat(a: string, b: string)
    ensures Fields(a + [Bar] + b) == Fields(a) + Fields(b)
    decreases |a|
  {
    var s := a + [Bar] + b;
    if |a| == 0 {
      assert s == [Bar] + b;
      assert s[1..] == b;
    } else {
      assert s[0] == a[0];
      assert s[1..] == a[1..] + [Bar] + b;
      FieldsConcat(a[1..], b);
      if a[0] != Bar {
        FieldsCons(a[0], Fields(a[1..]), Fields(b));
      }
    }
  }

  /** Putting a character before the first of two runs of fields extends its first field. */
  lemma FieldsCons(c: char, fa: seq<string>, fb: seq<string>)
    requires |fa| >= 1
    ensures [[c] + (fa + fb)[0]] + (fa + fb)[1..] == ([[c] + fa[0]] + fa[1..]) + fb
  {
    assert (fa + fb)[0] == fa[0];
    assert (fa + fb)[1..] == fa[1..] + fb;
  }

  /** Splitting, then joining with bars, gives back the text up to the bars it dropped. */
  lemma SplitJoin(s: string)
    ensures exists k: nat :: s == Join(Split(s), [Bar]) + Bars(k)
  {
    if Bar !in s {
      assert s == Join(Split(s), [Bar]) + Bars(0);
    } else {
      var fs := Fields(s);
      var r := Split(s);
      JoinDroppedEmpty(fs, |r|);
      if |r| == 0 {
        assert s == Join(r, [Bar]) + Bars(|fs| - 1);
      } else {
        assert fs[..|r|] == r;
        assert s == Join(r, [Bar]) + Bars(|fs| - |r|);
      }
    }
  }

  /** `k` bar characters. */
  function Bars(k: nat): (s: string)
    ensures |s| == k
    ensures forall i :: 0 <= i < k ==> s[i] == Bar
  {
    if k == 0 then "" else [Bar] + Bars(k - 1)
  }

  /** Joining a prefix and then the empty pieces that follow it adds one bar per piece. */
  lemma {:induction false} JoinDroppedEmpty(fs: seq<string>, n: nat)
    requires 1 <= |fs|
    requires n <= |fs|
    requires forall k :: n <= k < |fs| ==> fs[k] == ""
    ensures n > 0 ==> Join(fs, [Bar]) == Join(fs[..n], [Bar]) + Bars(|fs| - n)
    ensures n == 0 ==> Join(fs, [Bar]) == Bars(|fs| - 1)
    decreases |fs|
  {
    if |fs| == 1 {
      if n == 1 {
        assert fs[..1] == fs;
      }
    } else {
      JoinDroppedEmpty(fs[1..], if n == 0 then 0 else n - 1);
      assert Join(fs, [Bar]) == fs[0] + [Bar] + Join(fs[1..], [Bar]);
      if n == 0 {
        assert fs[0] == "";
      } else if n == 1 {
        assert fs[..1] == [fs[0]];
        assert Bars(|fs| - 1) == [Bar] + Bars(|fs| - 2);
        assert Join(fs[1..], [Bar]) == Bars(|fs| - 2);
      } else {
        assert fs[..n][1..] == fs[1..][..n - 1];
        assert Join(fs[..n], [Bar]) == fs[0] + [Bar] + Join(fs[1..][..n - 1], [Bar]);
      }
    }
  }

  /** A row whose last field is non-empty keeps every field, empty ones included. */
  lemma SplitRow(a: string, last: string)
    requires last != "" && Bar !in last
    ensures Split(a + [Bar] + last) == Fields(a) + [last]
  {
    var s := a + [Bar] + last;
    assert s[|a|] == Bar;
    FieldsConcat(a, last);
    FieldsWithoutBar(last);
  }

  // ---------------------------------------------------------------------------
  // literal replaceAll
  // ---------------------------------------------------------------------------

  /**
   Every occurrence of `pat` in `s`, scanning left to right and never
   re-scanning replaced text, replaced by `v`.
   */
  function ReplaceAll(s: string, pat: string, v: string): (r: string)
    requires |pat| > 0
    ensures v == pat ==> r == s
    decreases |s|
  {
    if |s| == 0 then ""
    else if pat <= s then
      assert s == s[..|pat|] + s[|pat|..];
      v + ReplaceAll(s[|pat|..], pat, v)
    else
      assert s == [s[0]] + s[1..];
      [s[0]] + ReplaceAll(s[1..], pat, v)
  }

  /** Text that cannot start an occurrence anywhere passes through unchanged. */
  lemma {:induction false} ReplaceAllSkips(a: string, b: string, pat: string, v: string)
    requires |pat| > 0 && pat[0] !in a
    ensures ReplaceAll(a + b, pat, v) == a + ReplaceAll(b, pat, v)
    decreases |a|
  {
    if |a| > 0 {
      var s := a + b;
      assert s[0] == a[0] != pat[0];
      assert !(pat <= s);
      assert s[1..] == a[1..] + b;
      assert pat[0] !in a[1..] by {
        forall i | 0 <= i < |a[1..]| ensures a[1..][i] != pat[0] { assert a[1..][i] == a[i + 1]; }
      }
      ReplaceAllSkips(a[1..], b, pat, v);
    } else {
      assert a + b == b;
    }
  }

  /** An occurrence at the front is replaced and scanning resumes after it. */
  lemma ReplaceAllHit(pat: string, b: string, v: string)
    requires |pat| > 0
    ensures ReplaceAll(pat + b, pat, v) == v + ReplaceAll(b, pat, v)
  {
    assert pat <= pat + b;
    assert (pat + b)[|pat|..] == b;
  }

  /**
   Text that differs from `pat` within its own length at some position, and
   holds `pat[0]` only at its head, passes through unchanged.
   */
  lemma ReplaceAllMiss(a: string, b: string, pat: string, v: string, j: nat)
    requires |pat| > 0 && |a| > 0 && pat[0] !in a[1..]
    requires j < |a| && j < |pat| && a[j] != pat[j]
    ensures ReplaceAll(a + b, pat, v) == a + ReplaceAll(b, pat, v)
  {
    var s := a + b;
    assert s[j] == a[j];
    assert !(pat <= s);
    assert s[1..] == a[1..] + b;
    ReplaceAllSkips(a[1..], b, pat, v);
    assert a == [a[0]] + a[1..];
  }

  /**
   Replacing in a text whose only occurrences of `pat[0]` open occurrences of
   `pat` substitutes `v` for each of them and changes nothing else.
   */
  lemma {:induction false} ReplaceAllJoin(pieces: seq<string>, pat: string, v: string)
    requires |pat| > 0
    requires forall k :: 0 <= k < |pieces| ==> pat[0] !in pieces[k]
    ensures ReplaceAll(Join(pieces, pat), pat, v) == Join(pieces, v)
    decreases |pieces|
  {
    if |pieces| == 0 {
    } else if |pieces| == 1 {
      ReplaceAllSkips(pieces[0], "", pat, v);
      assert pieces[0] + "" == pieces[0];
    } else {
      var rest := Join(pieces[1..], pat);
      assert Join(pieces, pat) == pieces[0] + (pat + rest);
      ReplaceAllSkips(pieces[0], pat + rest, pat, v);
      ReplaceAllHit(pat, rest, v);
      ReplaceAllJoin(pieces[1..], pat, v);
      assert Join(pieces, v) == pieces[0] + (v + Join(pieces[1..], v));
    }
  }
}
