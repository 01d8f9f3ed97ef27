/**
 * `normalizeOutput`: `str.replace(/\s+/g, ' ').trim()`. Every maximal run of
 * JavaScript whitespace becomes one space, then whitespace is cut from both
 * ends. Two outputs are compared by equality of their normalised forms.
 */
module Normalize {

  /** The characters JavaScript's `\s` and `trim` treat as whitespace. */
  predicate IsSpace(c: char) {
    c == ' ' || c == '\t' || c == '\n' || c == '\U{000B}' || c == '\U{000C}' || c == '\r'
    || c == '\U{00A0}' || c == '\U{1680}' || ('\U{2000}' <= c <= '\U{200A}')
    || c == '\U{2028}' || c == '\U{2029}' || c == '\U{202F}' || c == '\U{205F}'
    || c == '\U{3000}' || c == '\U{FEFF}'
  }

  /** The string keeps `' '` as its only whitespace character and never has two in a row. */
  predicate Collapsed(s: string) {
    && (forall i :: 0 <= i < |s| && IsSpace(s[i]) ==> s[i] == ' ')
    && (forall i :: 0 <= i < |s| - 1 ==> !(IsSpace(s[i]) && IsSpace(s[i + 1])))
  }

  /** The shape every normalised output has. */
  predicate Canonical(s: string) {
    && Collapsed(s)
    && (s != [] ==> !IsSpace(s[0]) && !IsSpace(s[|s| - 1]))
  }

  /** Drops the leading whitespace: `trimStart`. */
  function DropSpaces(s: string): (r: string)
    ensures |r| <= |s| && r == s[|s| - |r|..]
    ensures r != [] ==> !IsSpace(r[0])
  {
    if s != [] && IsSpace(s[0]) then DropSpaces(s[1..]) else s
  }

  /** Drops the trailing whitespace: `trimEnd`. */
  function TrimEnd(s: string): (r: string)
    ensures |r| <= |s| && r == s[..|r|]
    ensures r != [] ==> !IsSpace(r[|r| - 1])
  {
    if s != [] && IsSpace(s[|s| - 1]) then TrimEnd(s[..|s| - 1]) else s
  }

  /** `String.prototype.trim`. */
  function Trim(s: string): string {
    TrimEnd(DropSpaces(s))
  }

  /** `s.replace(/\s+/g, ' ')`: each maximal whitespace run becomes one space. */
  function Collapse(s: string): (r: string)
    ensures Collapsed(r)
    ensures r == [] <==> s == []
    ensures s != [] ==> (IsSpace(r[0]) <==> IsSpace(s[0]))
    decreases |s|
  {
    if s == [] then []
    else if IsSpace(s[0]) then
      var r := Collapse(DropSpaces(s[1..]));
      ConsCollapsed(' ', r);
      [' '] + r
    else
      var r := Collapse(s[1..]);
      ConsCollapsed(s[0], r);
      [s[0]] + r
  }

  /** Putting `c` in front keeps a string collapsed unless it makes a second space in a row. */
  lemma ConsCollapsed(c: char, x: string)
    requires Collapsed(x)
    requires IsSpace(c) ==> c == ' ' && (x == [] || !IsSpace(x[0]))
    ensures Collapsed([c] + x)
  {
    var y := [c] + x;
    assert forall i :: 1 <= i < |y| ==> y[i] == x[i - 1];
  }

  function NormalizeOutput(s: string): string {
    Trim(Collapse(s))
  }

  // ---------------------------------------------------------------------------
  // Reference definition: the whitespace-separated words of a string.

  /** Puts the non-space character `c` in front of `x`, whose words are `ws`. */
  function JoinChar(c: char, x: string, ws: seq<string>): (r: seq<string>)
    requires x != [] && !IsSpace(x[0]) ==> ws != []
    ensures r != []
  {
    if x != [] && !IsSpace(x[0]) then [[c] + ws[0]] + ws[1..] else [[c]] + ws
  }

  /** The words of `s`, in order. */
  function Words(s: string): (ws: seq<string>)
    ensures s != [] && !IsSpace(s[0]) ==> ws != []
  {
    if s == [] then []
    else if IsSpace(s[0]) then Words(s[1..])
    else JoinChar(s[0], s[1..], Words(s[1..]))
  }

  /** The words joined by single spaces. */
  function Unwords(ws: seq<string>): string {
    if ws == [] then ""
    else if |ws| == 1 then ws[0]
    else ws[0] + " " + Unwords(ws[1..])
  }

  // ---------------------------------------------------------------------------
  // Shape of the result

  lemma CollapsedSlice(s: string, i: nat, j: nat)
    requires Collapsed(s) && i <= j <= |s|
    ensures Collapsed(s[i..j])
  {
    assert forall k :: 0 <= k < j - i ==> s[i..j][k] == s[i + k];
  }

  lemma TrimCanonical(c: string)
    requires Collapsed(c)
    ensures Canonical(Trim(c))
  {
    var d := DropSpaces(c);
    var e := TrimEnd(d);
    assert Trim(c) == e;
    assert Collapsed(e) by {
      CollapsedSlice(c, |c| - |d|, |c|);
      CollapsedSlice(d, 0, |e|);
    }
    assert e != [] ==> !IsSpace(e[0]) by {
      if e != [] {
        assert e[0] == d[0];
      }
    }
  }

  /** The result has no leading or trailing whitespace, no two adjacent whitespace characters,
      and `' '` is the only whitespace character in it. */
  lemma NormalizeIsCanonical(s: string)
    ensures Canonical(NormalizeOutput(s))
  {
    TrimCanonical(Collapse(s));
  }

  lemma {:induction false} CollapseCollapsed(s: string)
    requires Collapsed(s)
    ensures Collapse(s) == s
    decreases |s|
  {
    if s == [] {
    } else if IsSpace(s[0]) {
      CollapsedSlice(s, 1, |s|);
      assert |s| > 1 ==> !IsSpace(s[1]);
      assert DropSpaces(s[1..]) == s[1..];
      CollapseCollapsed(s[1..]);
    } else {
      CollapsedSlice(s, 1, |s|);
      CollapseCollapsed(s[1..]);
    }
  }

  /** A canonical string is its own normal form. */
  lemma CanonicalFixed(s: string)
    requires Canonical(s)
    ensures NormalizeOutput(s) == s
  {
    CollapseCollapsed(s);
  }

  /** Normalising twice is normalising once. */
  lemma NormalizeIdempotent(s: string)
    ensures NormalizeOutput(NormalizeOutput(s)) == NormalizeOutput(s)
  {
    NormalizeIsCanonical(s);
    CanonicalFixed(NormalizeOutput(s));
  }

  // ---------------------------------------------------------------------------
  // Normalisation keeps exactly the words

  lemma {:induction false} WordsOfDropSpaces(s: string)
    ensures Words(DropSpaces(s)) == Words(s)
  {
    if s != [] && IsSpace(s[0]) {
      WordsOfDropSpaces(s[1..]);
    }
  }

  lemma {:induction false} WordsOfCollapse(s: string)
    ensures Words(Collapse(s)) == Words(s)
    decreases |s|
  {
    if s == [] {
    } else if IsSpace(s[0]) {
      var d := DropSpaces(s[1..]);
      WordsOfCollapse(d);
      WordsOfDropSpaces(s[1..]);
      assert ([' '] + Collapse(d))[1..] == Collapse(d);
    } else {
      WordsOfCollapse(s[1..]);
      assert ([s[0]] + Collapse(s[1..]))[1..] == Collapse(s[1..]);
    }
  }

  lemma {:induction false} WordsAppendSpace(x: string, c: char)
    requires IsSpace(c)
    ensures Words(x + [c]) == Words(x)
    decreases |x|
  {
    if x != [] {
      assert (x + [c])[1..] == x[1..] + [c];
      WordsAppendSpace(x[1..], c);
    }
  }

  lemma {:induction false} WordsOfTrimEnd(s: string)
    ensures Words(TrimEnd(s)) == Words(s)
    decreases |s|
  {
    if s != [] && IsSpace(s[|s| - 1]) {
      var p := s[..|s| - 1];
      assert s == p + [s[|s| - 1]];
      WordsAppendSpace(p, s[|s| - 1]);
      WordsOfTrimEnd(p);
    }
  }

  /** Normalisation neither adds, drops, splits nor joins words. */
  lemma WordsOfNormalize(s: string)
    ensures Words(NormalizeOutput(s)) == Words(s)
  {
    WordsOfCollapse(s);
    WordsOfDropSpaces(Collapse(s));
    WordsOfTrimEnd(DropSpaces(Collapse(s)));
  }

  lemma UnwordsJoinChar(c: char, w: string, r: seq<string>)
    ensures Unwords([[c] + w] + r) == [c] + Unwords([w] + r)
  {
    assert ([[c] + w] + r)[1..] == r;
    assert ([w] + r)[1..] == r;
  }

  /** A collapsed string without trailing whitespace is its words joined by single
      spaces, apart from one leading space. */
  lemma {:induction false} CollapsedIsUnwords(s: string)
    requires Collapsed(s) && (s != [] ==> !IsSpace(s[|s| - 1]))
    ensures Unwords(Words(s)) == if s != [] && IsSpace(s[0]) then s[1..] else s
    decreases |s|
  {
    if s != [] {
      var x := s[1..];
      CollapsedSlice(s, 1, |s|);
      if x != [] {
        assert x[|x| - 1] == s[|s| - 1];
      }
      CollapsedIsUnwords(x);
      if IsSpace(s[0]) {
        assert x != [] && !IsSpace(x[0]);
      } else if x != [] && !IsSpace(x[0]) {
        UnwordsInsideWord(s, Words(x));
      } else if x != [] {
        assert |x| > 1 && !IsSpace(x[1]);
        UnwordsBeforeSpace(s, Words(x));
      }
    }
  }

  /** Induction step of `CollapsedIsUnwords` when the second character is part of the same word. */
  lemma UnwordsInsideWord(s: string, ws: seq<string>)
    requires |s| > 1 && !IsSpace(s[0]) && !IsSpace(s[1])
    requires ws == Words(s[1..]) && Unwords(ws) == s[1..]
    ensures Unwords(Words(s)) == s
  {
    assert ws == [ws[0]] + ws[1..];
    UnwordsJoinChar(s[0], ws[0], ws[1..]);
  }

  /** Induction step of `CollapsedIsUnwords` when a one-character word is followed by a space. */
  lemma UnwordsBeforeSpace(s: string, ws: seq<string>)
    requires |s| > 2 && !IsSpace(s[0]) && s[1] == ' ' && !IsSpace(s[2])
    requires ws == Words(s[1..]) && Unwords(ws) == s[2..]
    ensures Unwords(Words(s)) == s
  {
    assert ws != [] by {
      assert s[1..][1..] == s[2..];
    }
    assert Words(s) == [[s[0]]] + ws;
    assert Unwords([[s[0]]] + ws) == [s[0]] + " " + Unwords(ws);
    assert s == [s[0]] + " " + s[2..];
  }

  /** A canonical string is its words joined by single spaces. */
  lemma CanonicalIsUnwords(s: string)
    requires Canonical(s)
    ensures s == Unwords(Words(s))
  {
    CollapsedIsUnwords(s);
  }

  /** Reference definition: the normal form is the words joined by single spaces. */
  lemma NormalizeIsUnwords(s: string)
    ensures NormalizeOutput(s) == Unwords(Words(s))
  {
    NormalizeIsCanonical(s);
    CanonicalIsUnwords(NormalizeOutput(s));
    WordsOfNormalize(s);
  }

  /** The comparator: two outputs match exactly when they have the same words. */
  lemma SameNormalFormIffSameWords(a: string, b: string)
    ensures NormalizeOutput(a) == NormalizeOutput(b) <==> Words(a) == Words(b)
  {
    var na, nb := NormalizeOutput(a), NormalizeOutput(b);
    assert na == nb ==> Words(a) == Words(b) by {
      WordsOfNormalize(a);
      WordsOfNormalize(b);
    }
    assert Words(a) == Words(b) ==> na == nb by {
      NormalizeIsUnwords(a);
      NormalizeIsUnwords(b);
    }
  }

  lemma WordsExampleNewline()
    ensures Words("a b\n") == ["a", "b"]
  {
    assert "a b\n"[1..] == " b\n" && " b\n"[1..] == "b\n" && "b\n"[1..] == "\n" && "\n"[1..] == [];
    assert Words("\n") == [];
    assert Words("b\n") == ["b"];
    assert Words(" b\n") == ["b"];
  }

  lemma WordsExampleRun()
    ensures Words("a   b") == ["a", "b"]
  {
    assert "a   b"[1..] == "   b" && "   b"[1..] == "  b" && "  b"[1..] == " b" && " b"[1..] == "b";
    assert "b"[1..] == [];
    assert Words("b") == ["b"];
    assert Words(" b") == ["b"];
    assert Words("  b") == ["b"];
    assert Words("   b") == ["b"];
  }

  lemma WordsExampleJoined()
    ensures Words("ab") == ["ab"]
  {
    assert "ab"[1..] == "b" && "b"[1..] == [];
    assert Words("b") == ["b"];
    assert JoinChar('a', "b", ["b"]) == [['a'] + "b"];
    assert ['a'] + "b" == "ab";
  }

  lemma WordsExampleSpaced()
    ensures Words("a b") == ["a", "b"]
  {
    assert "a b"[1..] == " b" && " b"[1..] == "b" && "b"[1..] == [];
    assert Words("b") == ["b"];
    assert Words(" b") == ["b"];
  }

  /** Incidental whitespace is tolerated; a missing separator is not. */
  lemma ComparatorExamples()
    ensures NormalizeOutput("a b\n") == NormalizeOutput("a   b")
    ensures NormalizeOutput("a b") != NormalizeOutput("ab")
  {
    WordsExampleNewline();
    WordsExampleRun();
    WordsExampleSpaced();
    WordsExampleJoined();
    SameNormalFormIffSameWords("a b\n", "a   b");
    SameNormalFormIffSameWords("a b", "ab");
    assert |Words("a b")| != |Words("ab")|;
  }
}
