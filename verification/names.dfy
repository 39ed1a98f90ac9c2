/** The Python string operations the mindmap script relies on, for the one-character
 *  arguments it passes: `str.replace(' ', '_')`, `str.strip(c)`, `str.split(c)`,
 *  `c.join(parts)` and `str.endswith(suffix)`. */
module Names {

  /** `s.replace(' ', '_')`: every space becomes an underscore, nothing else moves. */
  function Underscored(s: string): (r: string)
    ensures |r| == |s|
    ensures forall i :: 0 <= i < |s| ==> r[i] == (if s[i] == ' ' then '_' else s[i])
    ensures ' ' !in r
  {
    if s == [] then [] else [if s[0] == ' ' then '_' else s[0]] + Underscored(s[1..])
  }

  /** A string without spaces is left as it is. */
  lemma UnderscoredNoSpace(s: string)
    requires ' ' !in s
    ensures Underscored(s) == s
  {
    assert forall i :: 0 <= i < |s| ==> s[i] != ' ';
  }

  /** Underscoring distributes over concatenation. */
  lemma {:induction false} UnderscoredAppend(a: string, b: string)
    ensures Underscored(a + b) == Underscored(a) + Underscored(b)
  {
    var l, r := Underscored(a + b), Underscored(a) + Underscored(b);
    assert |l| == |r|;
    forall i | 0 <= i < |l| ensures l[i] == r[i] {
      if i < |a| {
        assert (a + b)[i] == a[i];
      } else {
        assert (a + b)[i] == b[i - |a|];
      }
    }
  }

  /** `s.lstrip(c)`: drops every leading `c`. */
  function TrimStart(s: string, c: char): (r: string)
    ensures |r| <= |s| && r == s[|s| - |r|..]
    ensures r == [] || r[0] != c
    ensures forall i :: 0 <= i < |s| - |r| ==> s[i] == c
  {
    if s != [] && s[0] == c then TrimStart(s[1..], c) else s
  }

  /** `s.rstrip(c)`: drops every trailing `c`. */
  function TrimEnd(s: string, c: char): (r: string)
    ensures |r| <= |s| && r == s[..|r|]
    ensures r == [] || r[|r| - 1] != c
    ensures forall i :: |r| <= i < |s| ==> s[i] == c
  {
    if s != [] && s[|s| - 1] == c then TrimEnd(s[..|s| - 1], c) else s
  }

  /** `s.strip(c)`: the longest inner slice of `s` that neither starts nor ends with `c`. */
  function Strip(s: string, c: char): (r: string)
    ensures r == [] || (r[0] != c && r[|r| - 1] != c)
    ensures |r| <= |s|
    ensures (s == [] || (s[0] != c && s[|s| - 1] != c)) ==> r == s
    ensures r == [] <==> forall i :: 0 <= i < |s| ==> s[i] == c
  {
    TrimEnd(TrimStart(s, c), c)
  }

  /** `strip(c)` removes exactly the leading and the trailing run of `c`: what is left is the
   *  slice of `s` between them. */
  lemma StripFramed(s: string, c: char)
    ensures exists k :: Framed(s, c, k, Strip(s, c))
  {
    var t := TrimStart(s, c);
    var r := TrimEnd(t, c);
    assert r == Strip(s, c);
    var k := |s| - |t|;
    assert t == s[k..] && r == t[..|r|];
    assert r == s[k..k + |r|];
    forall i | k + |r| <= i < |s|
      ensures s[i] == c
    {
      assert s[i] == t[i - k];
    }
    assert Framed(s, c, k, r);
  }

  /** `r` is the slice of `s` at `k`, with nothing but `c` before and after it. */
  predicate Framed(s: string, c: char, k: int, r: string)
  {
    0 <= k && k + |r| <= |s| && r == s[k..k + |r|] &&
    (forall i :: 0 <= i < k ==> s[i] == c) &&
    (forall i :: k + |r| <= i < |s| ==> s[i] == c)
  }

  /** Appending `c` to a string that is not all `c` survives a left trim. */
  lemma {:induction false} TrimStartAppend(s: string, c: char)
    ensures TrimStart(s + [c], c) == if TrimStart(s, c) == [] then [] else TrimStart(s, c) + [c]
  {
    if s != [] {
      assert (s + [c])[1..] == s[1..] + [c];
      if s[0] == c {
        TrimStartAppend(s[1..], c);
      }
    }
  }

  /** A trailing `c` disappears under a right trim. */
  lemma TrimEndAppend(s: string, c: char)
    ensures TrimEnd(s + [c], c) == TrimEnd(s, c)
  {
    assert (s + [c])[..|s|] == s;
  }

  /** `([c] + s + [c]).strip(c) == s.strip(c)`: one extra layer of `c` on both sides is removed. */
  lemma StripPadded(s: string, c: char)
    ensures Strip([c] + s + [c], c) == Strip(s, c)
  {
    var t := TrimStart(s, c);
    TrimStartPadded(s, c);
    if t != [] {
      TrimEndAppend(t, c);
    }
  }

  /** The left trim of `s` with one more `c` at each end is that of `s` with the `c` kept at
   *  the right, unless nothing is left. */
  lemma TrimStartPadded(s: string, c: char)
    ensures TrimStart([c] + s + [c], c) == if TrimStart(s, c) == [] then [] else TrimStart(s, c) + [c]
  {
    var padded := [c] + s + [c];
    assert padded[1..] == s + [c];
    TrimStartAppend(s, c);
  }

  /** `sep.join(parts)`. */
  function Join(parts: seq<string>, sep: char): string
  {
    if parts == [] then ""
    else if |parts| == 1 then parts[0]
    else parts[0] + [sep] + Join(parts[1..], sep)
  }

  /** `s.split(sep)`: the pieces between separators, empty pieces included; never an empty list. */
  function Split(s: string, sep: char): (parts: seq<string>)
    ensures |parts| >= 1
    ensures forall i :: 0 <= i < |parts| ==> sep !in parts[i]
  {
    if s == [] then [""]
    else
      var tail := Split(s[1..], sep);
      if s[0] == sep then [""] + tail else [[s[0]] + tail[0]] + tail[1..]
  }

  /** The text after the first `sep` of `s`, or the empty string when `s` has none. */
  function AfterFirst(s: string, sep: char): string
  {
    if s == [] then ""
    else if s[0] == sep then s[1..]
    else AfterFirst(s[1..], sep)
  }

  /** Joining the pieces of a split gives the string back. */
  lemma {:induction false} JoinSplit(s: string, sep: char)
    ensures Join(Split(s, sep), sep) == s
  {
    if s != [] {
      var tail := Split(s[1..], sep);
      JoinSplit(s[1..], sep);
      if s[0] == sep {
        assert Split(s, sep) == [""] + tail;
      } else {
        var parts := Split(s, sep);
        assert parts[1..] == tail[1..];
        if |tail| > 1 {
          assert Join(tail, sep) == tail[0] + [sep] + Join(tail[1..], sep);
        }
      }
    }
  }

  /** Splitting a joined list of separator-free pieces gives the pieces back. */
  lemma {:induction false} SplitJoin(parts: seq<string>, sep: char)
    requires |parts| >= 1
    requires forall i :: 0 <= i < |parts| ==> sep !in parts[i]
    ensures Split(Join(parts, sep), sep) == parts
  {
    if |parts| == 1 {
      SplitFree(parts[0], "", sep);
      assert parts[0] + "" == parts[0];
    } else {
      var rest := Join(parts[1..], sep);
      SplitJoin(parts[1..], sep);
      var sepRest := [sep] + rest;
      assert sepRest[1..] == rest;
      assert Split(sepRest, sep) == [""] + parts[1..];
      SplitFree(parts[0], sepRest, sep);
      assert parts[0] + [sep] + rest == parts[0] + sepRest;
      assert parts[0] + "" == parts[0];
      assert [parts[0]] + parts[1..] == parts;
    }
  }

  /** A separator-free head is glued onto the first piece of what follows it. */
  lemma {:induction false} SplitFree(a: string, t: string, sep: char)
    requires sep !in a
    ensures Split(a + t, sep) == [a + Split(t, sep)[0]] + Split(t, sep)[1..]
  {
    var st := Split(t, sep);
    if a == [] {
      assert a + t == t && a + st[0] == st[0];
      assert [st[0]] + st[1..] == st;
    } else {
      assert (a + t)[0] == a[0] && a[0] != sep;
      assert (a + t)[1..] == a[1..] + t;
      SplitFree(a[1..], t, sep);
      var tail := Split(a[1..] + t, sep);
      assert tail[0] == a[1..] + st[0] && tail[1..] == st[1..];
      assert [a[0]] + (a[1..] + st[0]) == a + st[0];
    }
  }

  /** Joining every piece of a split but the first is the text after the first separator. */
  lemma {:induction false} JoinSplitTail(s: string, sep: char)
    ensures Join(Split(s, sep)[1..], sep) == AfterFirst(s, sep)
  {
    if s != [] {
      var tail := Split(s[1..], sep);
      if s[0] == sep {
        assert Split(s, sep)[1..] == tail;
        JoinSplit(s[1..], sep);
      } else {
        assert Split(s, sep)[1..] == tail[1..];
        JoinSplitTail(s[1..], sep);
      }
    }
  }

  /** Joining one more piece appends a separator and the piece. */
  lemma {:induction false} JoinSnoc(parts: seq<string>, last: string, sep: char)
    requires parts != []
    ensures Join(parts + [last], sep) == Join(parts, sep) + [sep] + last
  {
    var all := parts + [last];
    assert all[0] == parts[0];
    if |parts| == 1 {
      assert all[1..] == [last];
    } else {
      assert all[1..] == parts[1..] + [last];
      JoinSnoc(parts[1..], last, sep);
    }
  }

  /** A string with no `c` at either end and at least one character. */
  predicate Unpadded(s: string, c: char)
  {
    s != [] && s[0] != c && s[|s| - 1] != c
  }

  /** Joined unpadded pieces are unpadded. */
  lemma {:induction false} JoinUnpadded(parts: seq<string>, sep: char)
    requires parts != []
    requires forall i :: 0 <= i < |parts| ==> Unpadded(parts[i], sep)
    ensures Unpadded(Join(parts, sep), sep)
  {
    if |parts| > 1 {
      JoinUnpadded(parts[1..], sep);
      var rest := Join(parts[1..], sep);
      var whole := parts[0] + [sep] + rest;
      assert whole[0] == parts[0][0];
      assert whole[|whole| - 1] == rest[|rest| - 1];
    }
  }

  /** One leading `c` in front of an unpadded string is all that `strip` removes. */
  lemma StripLeading(s: string, c: char)
    requires Unpadded(s, c)
    ensures Strip([c] + s, c) == s
  {
    assert ([c] + s)[1..] == s;
    assert TrimStart(s, c) == s;
  }

  /** The text after the first separator of joined pieces whose first piece has none. */
  lemma {:induction false} AfterFirstJoin(parts: seq<string>, sep: char)
    requires |parts| >= 2 && sep !in parts[0]
    ensures AfterFirst(Join(parts, sep), sep) == Join(parts[1..], sep)
  {
    AfterFirstFree(parts[0], Join(parts[1..], sep), sep);
  }

  lemma {:induction false} AfterFirstFree(a: string, rest: string, sep: char)
    requires sep !in a
    ensures AfterFirst(a + [sep] + rest, sep) == rest
  {
    var s := a + [sep] + rest;
    if a == [] {
      assert s == [sep] + rest && s[1..] == rest;
    } else {
      assert s[0] == a[0] && s[1..] == a[1..] + [sep] + rest;
      AfterFirstFree(a[1..], rest, sep);
    }
  }

  /** `s.endswith(suffix)`, case-sensitive. */
  predicate EndsWith(s: string, suffix: string)
  {
    |suffix| <= |s| && s[|s| - |suffix|..] == suffix
  }
}
