/** Java's `String.split` for the two patterns the source uses: a single
    literal character (`","`) and the whitespace run `"\\s+"`, with Java's
    rules (no match gives the whole string; trailing empty strings are
    dropped), plus `Collectors.joining`. */
module Split {
  import opened Text

  /** Every field between occurrences of `sep`, empty ones included: `n`
      separators give `n + 1` fields. */
  function Fields(s: string, sep: char): (r: seq<string>)
    ensures |r| >= 1
    ensures forall i :: 0 <= i < |r| ==> sep !in r[i]
  {
    if s == [] then [[]]
    else if s[0] == sep then [[]] + Fields(s[1..], sep)
    else
      var f := Fields(s[1..], sep);
      [[s[0]] + f[0]] + f[1..]
  }

  function DropTrailingEmpty(fs: seq<string>): (r: seq<string>)
    ensures |r| <= |fs| && r == fs[..|r|]
    ensures r == [] || r[|r| - 1] != []
    ensures forall i :: |r| <= i < |fs| ==> fs[i] == []
  {
    if fs == [] || fs[|fs| - 1] != [] then fs else DropTrailingEmpty(fs[..|fs| - 1])
  }

  /** `s.split(String.valueOf(sep))`. */
  function SplitOn(s: string, sep: char): seq<string> {
    if sep !in s then [s] else DropTrailingEmpty(Fields(s, sep))
  }

  /** The text before the first `sep` (all of `s` when there is none). */
  function Before(s: string, sep: char): (r: string)
    ensures |r| <= |s| && r == s[..|r|] && sep !in r
    ensures |r| < |s| ==> s[|r|] == sep
  {
    if s == [] || s[0] == sep then [] else [s[0]] + Before(s[1..], sep)
  }

  lemma {:induction false} FieldsHead(s: string, sep: char)
    ensures Fields(s, sep)[0] == Before(s, sep)
  {
    if s != [] && s[0] != sep {
      FieldsHead(s[1..], sep);
    }
  }

  /** Every field is empty exactly when the string is only separators. */
  lemma {:induction false} FieldsAllEmpty(s: string, sep: char)
    ensures (forall i :: 0 <= i < |Fields(s, sep)| ==> Fields(s, sep)[i] == [])
        <==> (forall k :: 0 <= k < |s| ==> s[k] == sep)
  {
    if s != [] {
      FieldsAllEmpty(s[1..], sep);
      var f := Fields(s[1..], sep);
      if s[0] == sep {
        var g := Fields(s, sep);
        assert g == [[]] + f;
        assert forall i :: 1 <= i < |g| ==> g[i] == f[i - 1];
        assert forall i :: 0 <= i < |f| ==> f[i] == g[i + 1];
        assert forall k :: 1 <= k < |s| ==> s[k] == s[1..][k - 1];
        assert (forall i :: 0 <= i < |g| ==> g[i] == []) <==> (forall i :: 0 <= i < |f| ==> f[i] == []);
        assert (forall k :: 0 <= k < |s| ==> s[k] == sep) <==> (forall k :: 0 <= k < |s| - 1 ==> s[1..][k] == sep);
      } else {
        assert Fields(s, sep)[0] != [];
      }
    }
  }

  /** Java's split returns an empty array exactly for a non-empty string made
      only of separators; otherwise its first element is the text before the
      first separator. */
  lemma SplitOnShape(s: string, sep: char)
    ensures SplitOn(s, sep) == [] <==> (|s| > 0 && forall k :: 0 <= k < |s| ==> s[k] == sep)
    ensures SplitOn(s, sep) != [] ==> SplitOn(s, sep)[0] == Before(s, sep)
  {
    FieldsAllEmpty(s, sep);
    FieldsHead(s, sep);
    var f := Fields(s, sep);
    if sep in s {
      var d := DropTrailingEmpty(f);
      if d == [] {
        assert forall i :: 0 <= i < |f| ==> f[i] == [];
      } else {
        assert d[0] == f[0];
      }
      if |s| > 0 && forall k :: 0 <= k < |s| ==> s[k] == sep {
        assert forall i :: 0 <= i < |f| ==> f[i] == [];
      }
    } else {
      assert Before(s, sep) == s;
      if |s| > 0 { assert s[0] != sep; }
    }
  }

  /** The longest prefix without a regex space. */
  function TakeWord(s: string): (r: string)
    ensures |r| <= |s| && r == s[..|r|]
    ensures forall i :: 0 <= i < |r| ==> !IsRegexSpace(r[i])
    ensures |r| < |s| ==> IsRegexSpace(s[|r|])
  {
    if s == [] || IsRegexSpace(s[0]) then [] else [s[0]] + TakeWord(s[1..])
  }

  /** What is left after a leading run of regex spaces. */
  function SkipSpaces(s: string): (r: string)
    ensures |r| <= |s| && r == s[|s| - |r|..]
    ensures r == [] || !IsRegexSpace(r[0])
  {
    if s != [] && IsRegexSpace(s[0]) then SkipSpaces(s[1..]) else s
  }

  /** Fields between maximal runs of regex spaces, for a string that does
      not start with one. */
  function RunFields(s: string): (r: seq<string>)
    ensures |r| >= 1
    decreases |s|
  {
    var w := TakeWord(s);
    var rest := s[|w|..];
    if rest == [] then [w] else [w] + RunFields(SkipSpaces(rest))
  }

  predicate HasRegexSpace(s: string) {
    exists i :: 0 <= i < |s| && IsRegexSpace(s[i])
  }

  /** `s.split("\\s+")`: a leading run yields a leading empty field, trailing
      empty fields are dropped, and no match gives `[s]`. */
  function SplitSpaces(s: string): seq<string> {
    if !HasRegexSpace(s) then [s]
    else if IsRegexSpace(s[0]) then DropTrailingEmpty([[]] + RunFields(SkipSpaces(s)))
    else DropTrailingEmpty(RunFields(s))
  }

  /** `Collectors.joining(sep)`. */
  function Join(ws: seq<string>, sep: string): string {
    if ws == [] then [] else if |ws| == 1 then ws[0] else ws[0] + sep + Join(ws[1..], sep)
  }

  /** A word as the keyword builder emits it: non-empty, no regex space. */
  predicate IsWord(w: string) {
    w != [] && !HasRegexSpace(w)
  }

  lemma {:induction false} TakeWordOf(w: string, t: string)
    requires !HasRegexSpace(w)
    requires t == [] || IsRegexSpace(t[0])
    ensures TakeWord(w + t) == w
  {
    if w != [] {
      assert (w + t)[1..] == w[1..] + t;
      assert !IsRegexSpace(w[0]);
      TakeWordOf(w[1..], t);
    } else {
      assert w + t == t;
    }
  }

  lemma {:induction false} RunFieldsJoin(ws: seq<string>)
    requires |ws| >= 1
    requires forall i :: 0 <= i < |ws| ==> IsWord(ws[i])
    ensures RunFields(Join(ws, " ")) == ws
    decreases |ws|
  {
    if |ws| == 1 {
      TakeWordOf(ws[0], []);
      assert ws[0] + [] == ws[0];
    } else {
      assert forall i :: 0 <= i < |ws[1..]| ==> IsWord(ws[1..][i]) by {
        forall i | 0 <= i < |ws[1..]| ensures IsWord(ws[1..][i]) {
          assert ws[1..][i] == ws[i + 1];
        }
      }
      RunFieldsJoin(ws[1..]);
      RunFieldsJoinStep(ws);
    }
  }

  /** One more word in front: its field comes first, then the rest's. */
  lemma RunFieldsJoinStep(ws: seq<string>)
    requires |ws| > 1 && IsWord(ws[0])
    requires Join(ws[1..], " ") != [] && !IsRegexSpace(Join(ws[1..], " ")[0])
    requires RunFields(Join(ws[1..], " ")) == ws[1..]
    ensures RunFields(Join(ws, " ")) == ws
  {
    var tail := Join(ws[1..], " ");
    var s := ws[0] + (" " + tail);
    assert Join(ws, " ") == s;
    TakeWordOf(ws[0], " " + tail);
    assert s[|ws[0]|..] == " " + tail;
    SkipOneSpace(tail);
    RunFieldsStep(s, ws[0], tail);
    assert [ws[0]] + ws[1..] == ws;
  }

  lemma RunFieldsStep(s: string, w: string, tail: string)
    requires TakeWord(s) == w && |w| <= |s| && s[|w|..] == " " + tail
    requires SkipSpaces(" " + tail) == tail
    ensures RunFields(s) == [w] + RunFields(tail)
  {
  }

  lemma SkipOneSpace(tail: string)
    requires tail != [] && !IsRegexSpace(tail[0])
    ensures SkipSpaces(" " + tail) == tail
  {
    assert (" " + tail)[1..] == tail;
  }

  lemma {:induction false} JoinStartsWithWord(ws: seq<string>)
    requires |ws| >= 1
    requires forall i :: 0 <= i < |ws| ==> IsWord(ws[i])
    ensures Join(ws, " ") != [] && !IsRegexSpace(Join(ws, " ")[0])
    ensures |ws| == 1 ==> !HasRegexSpace(Join(ws, " "))
    ensures |ws| > 1 ==> HasRegexSpace(Join(ws, " "))
  {
    if |ws| > 1 {
      assert Join(ws, " ")[|ws[0]|] == ' ';
    }
  }

  /** Splitting on whitespace runs undoes joining words with single spaces. */
  lemma SplitJoin(ws: seq<string>)
    requires |ws| >= 1
    requires forall i :: 0 <= i < |ws| ==> IsWord(ws[i])
    ensures SplitSpaces(Join(ws, " ")) == ws
  {
    JoinStartsWithWord(ws);
    if |ws| > 1 {
      RunFieldsJoin(ws);
    }
  }
}
