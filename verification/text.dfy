/** The JavaScript string operations the handlers use: `split` on a
    one-character separator, `trim`, and dropping empty strings with
    `filter(m => m)`. */
module Text {

  /** The characters `String.prototype.trim` removes: the WhiteSpace and
      LineTerminator code points of ECMAScript (sections 12.2 and 12.3 of
      ECMA-262), that is TAB, VT, FF, SPACE, NBSP, ZWNBSP, the Unicode space
      separators (category Zs), LF, CR, LS and PS. */
  predicate IsWhitespace(c: char) {
    || c == '\t' || c == '\U{000B}' || c == '\U{000C}' || c == ' '
    || c == '\U{00A0}' || c == '\U{FEFF}' || c == '\U{1680}'
    || ('\U{2000}' <= c <= '\U{200A}')
    || c == '\U{202F}' || c == '\U{205F}' || c == '\U{3000}'
    || c == '\n' || c == '\r' || c == '\U{2028}' || c == '\U{2029}'
  }

  ghost predicate AllWhitespace(s: string) {
    forall k :: 0 <= k < |s| ==> IsWhitespace(s[k])
  }

  /** Number of occurrences of `c` in `s`. */
  function Count(s: string, c: char): nat {
    if |s| == 0 then 0 else (if s[0] == c then 1 else 0) + Count(s[1..], c)
  }

  /** `s.split(sep)`: the separator-free runs of `s` between occurrences of
      `sep`, in order, empty runs included. There is always one more piece
      than there are separators, and the first piece runs up to the first
      separator. */
  function Split(s: string, sep: char): (pieces: seq<string>)
    ensures |pieces| == Count(s, sep) + 1
    ensures forall k :: 0 <= k < |pieces| ==> sep !in pieces[k]
    ensures |pieces[0]| <= |s| && pieces[0] == s[..|pieces[0]|]
    ensures |pieces[0]| < |s| ==> s[|pieces[0]|] == sep
    decreases |s|
  {
    if |s| == 0 then [""]
    else
      var rest := Split(s[1..], sep);
      if s[0] == sep then [""] + rest
      else [[s[0]] + rest[0]] + rest[1..]
  }

  /** `pieces.join(sep)`, the inverse of `Split`. */
  function Join(pieces: seq<string>, sep: char): string
    requires |pieces| >= 1
  {
    if |pieces| == 1 then pieces[0] else pieces[0] + [sep] + Join(pieces[1..], sep)
  }

  /** Joining the pieces of a split gives back the original string. */
  lemma {:induction false} JoinSplit(s: string, sep: char)
    ensures Join(Split(s, sep), sep) == s
    decreases |s|
  {
    if |s| > 0 {
      var rest := Split(s[1..], sep);
      JoinSplit(s[1..], sep);
      if s[0] == sep {
        assert Split(s, sep) == [""] + rest;
        assert ([""] + rest)[1..] == rest;
      } else {
        var pieces := Split(s, sep);
        if |rest| == 1 {
          assert pieces == [[s[0]] + rest[0]];
        } else {
          assert pieces[1..] == rest[1..];
          assert Join(pieces, sep) == [s[0]] + rest[0] + [sep] + Join(rest[1..], sep);
          assert Join(rest, sep) == rest[0] + [sep] + Join(rest[1..], sep);
        }
        assert s == [s[0]] + s[1..];
      }
    }
  }

  /** A string with no separator splits into itself alone. */
  lemma {:induction false} SplitWithoutSeparator(s: string, sep: char)
    requires sep !in s
    ensures Split(s, sep) == [s]
    decreases |s|
  {
    if |s| > 0 {
      assert sep !in s[1..];
      SplitWithoutSeparator(s[1..], sep);
      assert s == [s[0]] + s[1..];
    }
  }

  /** A separator-free prefix followed by a separator splits off as one piece. */
  lemma {:induction false} SplitAfterSeparator(a: string, sep: char, b: string)
    requires sep !in a
    ensures Split(a + [sep] + b, sep) == [a] + Split(b, sep)
    decreases |a|
  {
    var s := a + [sep] + b;
    if |a| == 0 {
      assert s == [sep] + b;
      assert s[1..] == b;
    } else {
      assert s[1..] == a[1..] + [sep] + b;
      assert sep !in a[1..];
      SplitAfterSeparator(a[1..], sep, b);
      assert a == [a[0]] + a[1..];
    }
  }

  /** Splitting a join of separator-free pieces gives back the pieces. */
  lemma {:induction false} SplitJoin(pieces: seq<string>, sep: char)
    requires |pieces| >= 1
    requires forall k :: 0 <= k < |pieces| ==> sep !in pieces[k]
    ensures Split(Join(pieces, sep), sep) == pieces
    decreases |pieces|
  {
    if |pieces| == 1 {
      SplitWithoutSeparator(pieces[0], sep);
    } else {
      SplitJoin(pieces[1..], sep);
      SplitAfterSeparator(pieces[0], sep, Join(pieces[1..], sep));
      assert pieces == [pieces[0]] + pieces[1..];
    }
  }

  /** `s` with its leading whitespace removed. */
  function TrimStart(s: string): string
    decreases |s|
  {
    if |s| > 0 && IsWhitespace(s[0]) then TrimStart(s[1..]) else s
  }

  /** `TrimStart(s)` is a suffix of `s` that does not start with whitespace,
      and everything in front of it is whitespace. */
  lemma {:induction false} TrimStartMeaning(s: string)
    ensures |TrimStart(s)| <= |s| && TrimStart(s) == s[|s| - |TrimStart(s)|..]
    ensures forall k :: 0 <= k < |s| - |TrimStart(s)| ==> IsWhitespace(s[k])
    ensures TrimStart(s) == [] || !IsWhitespace(TrimStart(s)[0])
    decreases |s|
  {
    if |s| > 0 && IsWhitespace(s[0]) {
      TrimStartMeaning(s[1..]);
      var r := TrimStart(s[1..]);
      assert s[1..][|s| - 1 - |r|..] == s[|s| - |r|..];
      forall k | 0 <= k < |s| - |r|
        ensures IsWhitespace(s[k])
      {
        if k > 0 {
          assert s[k] == s[1..][k - 1];
        }
      }
    }
  }

  /** `s` with its trailing whitespace removed. */
  function TrimEnd(s: string): string
    decreases |s|
  {
    if |s| > 0 && IsWhitespace(s[|s| - 1]) then TrimEnd(s[..|s| - 1]) else s
  }

  /** `TrimEnd(s)` is a prefix of `s` that does not end with whitespace, and
      everything after it is whitespace. */
  lemma {:induction false} TrimEndMeaning(s: string)
    ensures |TrimEnd(s)| <= |s| && TrimEnd(s) == s[..|TrimEnd(s)|]
    ensures forall k :: |TrimEnd(s)| <= k < |s| ==> IsWhitespace(s[k])
    ensures TrimEnd(s) == [] || !IsWhitespace(TrimEnd(s)[|TrimEnd(s)| - 1])
    decreases |s|
  {
    if |s| > 0 && IsWhitespace(s[|s| - 1]) {
      TrimEndMeaning(s[..|s| - 1]);
      var r := TrimEnd(s[..|s| - 1]);
      assert s[..|s| - 1][..|r|] == s[..|r|];
      forall k | |r| <= k < |s|
        ensures IsWhitespace(s[k])
      {
        if k < |s| - 1 {
          assert s[k] == s[..|s| - 1][k];
        }
      }
    }
  }

  /** Number of leading whitespace characters of `s`. */
  function LeadLength(s: string): nat {
    TrimStartMeaning(s);
    |s| - |TrimStart(s)|
  }

  /** `s.trim()`. */
  function Trim(s: string): string {
    TrimEnd(TrimStart(s))
  }

  /** `Trim(s)` is the part of `s` between its leading and its trailing
      whitespace: it neither starts nor ends with whitespace, and what was
      cut off on either side is whitespace only. */
  lemma TrimMeaning(s: string)
    ensures LeadLength(s) + |Trim(s)| <= |s|
    ensures Trim(s) == s[LeadLength(s)..LeadLength(s) + |Trim(s)|]
    ensures forall k :: 0 <= k < LeadLength(s) ==> IsWhitespace(s[k])
    ensures forall k :: LeadLength(s) + |Trim(s)| <= k < |s| ==> IsWhitespace(s[k])
    ensures Trim(s) == [] || (!IsWhitespace(Trim(s)[0]) && !IsWhitespace(Trim(s)[|Trim(s)| - 1]))
  {
    TrimStartMeaning(s);
    TrimEndMeaning(TrimStart(s));
  }

  /** Trimming yields the empty string exactly for whitespace-only input. */
  lemma TrimEmptyIff(s: string)
    ensures Trim(s) == [] <==> AllWhitespace(s)
  {
    TrimMeaning(s);
    var r := Trim(s);
    if r != [] {
      assert r[0] == s[LeadLength(s)];
    }
  }

  /** Leading whitespace in front of a non-blank start is all `TrimStart`
      removes. */
  lemma {:induction false} TrimStartSkips(lead: string, rest: string)
    requires AllWhitespace(lead)
    requires |rest| > 0 && !IsWhitespace(rest[0])
    ensures TrimStart(lead + rest) == rest
    decreases |lead|
  {
    if |lead| == 0 {
      assert lead + rest == rest;
    } else {
      assert (lead + rest)[0] == lead[0];
      assert (lead + rest)[1..] == lead[1..] + rest;
      TrimStartSkips(lead[1..], rest);
    }
  }

  /** Trailing whitespace after a non-blank end is all `TrimEnd` removes. */
  lemma {:induction false} TrimEndSkips(core: string, trail: string)
    requires AllWhitespace(trail)
    requires |core| > 0 && !IsWhitespace(core[|core| - 1])
    ensures TrimEnd(core + trail) == core
    decreases |trail|
  {
    var s := core + trail;
    if |trail| == 0 {
      assert s == core;
    } else {
      assert s[|s| - 1] == trail[|trail| - 1];
      assert s[..|s| - 1] == core + trail[..|trail| - 1];
      TrimEndSkips(core, trail[..|trail| - 1]);
    }
  }

  /** Trimming a padded string gives back what was padded, so trimming
      undoes padding with whitespace. */
  lemma TrimPadded(lead: string, core: string, trail: string)
    requires AllWhitespace(lead) && AllWhitespace(trail)
    requires |core| > 0 && !IsWhitespace(core[0]) && !IsWhitespace(core[|core| - 1])
    ensures Trim(lead + core + trail) == core
  {
    assert lead + core + trail == lead + (core + trail);
    assert (core + trail)[0] == core[0];
    TrimStartSkips(lead, core + trail);
    TrimEndSkips(core, trail);
  }

  /** A piece with nothing around it is left as it is. */
  lemma TrimBare(core: string)
    requires core != [] && !IsWhitespace(core[0]) && !IsWhitespace(core[|core| - 1])
    ensures Trim(core) == core
  {
    assert core == "" + core + "";
    TrimPadded("", core, "");
  }

  /** Trimming twice is trimming once. */
  lemma TrimIdempotent(s: string)
    ensures Trim(Trim(s)) == Trim(s)
  {
    TrimMeaning(s);
    var r := Trim(s);
    assert TrimStart(r) == r;
    assert TrimEnd(r) == r;
  }

  /** `pieces.filter(m => m)`: the non-empty strings of `pieces`, in order. */
  function DropEmpty(pieces: seq<string>): (r: seq<string>)
    ensures |r| <= |pieces|
  {
    if |pieces| == 0 then []
    else (if pieces[0] == "" then [] else [pieces[0]]) + DropEmpty(pieces[1..])
  }

  /** The filter keeps exactly the non-empty pieces. */
  lemma {:induction false} DropEmptyMeaning(pieces: seq<string>)
    ensures forall p :: p in DropEmpty(pieces) <==> p in pieces && p != ""
    decreases |pieces|
  {
    if |pieces| > 0 {
      DropEmptyMeaning(pieces[1..]);
      assert pieces == [pieces[0]] + pieces[1..];
    }
  }

  /** Filtering distributes over concatenation, so relative order is kept. */
  lemma {:induction false} DropEmptyConcat(a: seq<string>, b: seq<string>)
    ensures DropEmpty(a + b) == DropEmpty(a) + DropEmpty(b)
    decreases |a|
  {
    if |a| > 0 {
      assert (a + b)[1..] == a[1..] + b;
      DropEmptyConcat(a[1..], b);
    } else {
      assert a + b == b;
    }
  }

  /** Filtering leaves nothing exactly when every piece is empty. */
  lemma {:induction false} DropEmptyNil(pieces: seq<string>)
    ensures DropEmpty(pieces) == [] <==> forall k :: 0 <= k < |pieces| ==> pieces[k] == ""
    decreases |pieces|
  {
    if |pieces| > 0 {
      DropEmptyNil(pieces[1..]);
      if pieces[0] == "" {
        assert forall k :: 1 <= k < |pieces| ==> pieces[k] == pieces[1..][k - 1];
      }
    }
  }

  /** Every piece of `pieces`, trimmed. */
  function TrimEach(pieces: seq<string>): seq<string> {
    seq(|pieces|, k requires 0 <= k < |pieces| => Trim(pieces[k]))
  }

  /** `TrimEach` of a sequence built from a first piece and the rest. */
  lemma TrimEachCons(first: string, rest: seq<string>)
    ensures TrimEach([first] + rest) == [Trim(first)] + TrimEach(rest)
  {
  }

  /** `s.split(sep).map(m => m.trim()).filter(m => m)`. */
  function SplitTrimmed(s: string, sep: char): seq<string> {
    DropEmpty(TrimEach(Split(s, sep)))
  }

  /** Trimming cannot introduce a character. */
  lemma TrimKeepsOut(p: string, c: char)
    requires c !in p
    ensures c !in Trim(p)
    ensures Trim(p) == [] || (!IsWhitespace(Trim(p)[0]) && !IsWhitespace(Trim(p)[|Trim(p)| - 1]))
  {
    TrimMeaning(p);
  }

  /** Shape of a split-trim-filter list: no entry is empty, contains the
      separator, or begins or ends with whitespace, and there are at most as
      many entries as pieces. */
  lemma SplitTrimmedShape(s: string, sep: char)
    ensures |SplitTrimmed(s, sep)| <= Count(s, sep) + 1
    ensures forall m :: m in SplitTrimmed(s, sep) ==>
      && m != ""
      && sep !in m
      && !IsWhitespace(m[0])
      && !IsWhitespace(m[|m| - 1])
  {
    var pieces := Split(s, sep);
    var trimmed := TrimEach(pieces);
    var r := SplitTrimmed(s, sep);
    DropEmptyMeaning(trimmed);
    forall m | m in r
      ensures m != "" && sep !in m && !IsWhitespace(m[0]) && !IsWhitespace(m[|m| - 1])
    {
      assert m in trimmed;
      var j :| 0 <= j < |trimmed| && trimmed[j] == m;
      assert sep !in pieces[j];
      TrimKeepsOut(pieces[j], sep);
    }
  }

  /** The separator-or-whitespace characters. */
  ghost predicate OnlySeparatorsOrWhitespace(s: string, sep: char) {
    forall k :: 0 <= k < |s| ==> s[k] == sep || IsWhitespace(s[k])
  }

  /** Every piece is whitespace-only. */
  ghost predicate AllBlank(pieces: seq<string>) {
    forall k :: 0 <= k < |pieces| ==> AllWhitespace(pieces[k])
  }

  lemma AllBlankCons(x: string, pieces: seq<string>)
    ensures AllBlank([x] + pieces) <==> AllWhitespace(x) && AllBlank(pieces)
  {
    var xs := [x] + pieces;
    assert xs[0] == x;
    assert forall k :: 1 <= k < |xs| ==> xs[k] == pieces[k - 1];
    if AllWhitespace(x) && AllBlank(pieces) {
      forall k | 0 <= k < |xs| ensures AllWhitespace(xs[k]) {
        if k > 0 { assert xs[k] == pieces[k - 1]; }
      }
    }
    if AllBlank(xs) {
      forall k | 0 <= k < |pieces| ensures AllWhitespace(pieces[k]) { assert pieces[k] == xs[k + 1]; }
    }
  }

  lemma AllWhitespaceCons(c: char, t: string)
    ensures AllWhitespace([c] + t) <==> IsWhitespace(c) && AllWhitespace(t)
  {
    var ct := [c] + t;
    assert ct[0] == c;
    assert forall k :: 1 <= k < |ct| ==> ct[k] == t[k - 1];
    if AllWhitespace(ct) {
      forall k | 0 <= k < |t| ensures IsWhitespace(t[k]) { assert t[k] == ct[k + 1]; }
    }
  }

  lemma OnlySeparatorsCons(s: string, sep: char)
    requires |s| > 0
    ensures OnlySeparatorsOrWhitespace(s, sep)
        <==> (s[0] == sep || IsWhitespace(s[0])) && OnlySeparatorsOrWhitespace(s[1..], sep)
  {
    assert forall k :: 1 <= k < |s| ==> s[k] == s[1..][k - 1];
  }

  /** Every piece of a split is whitespace-only exactly when the string
      holds only separators and whitespace. */
  lemma {:induction false} PiecesBlankIff(s: string, sep: char)
    requires !IsWhitespace(sep)
    ensures AllBlank(Split(s, sep)) <==> OnlySeparatorsOrWhitespace(s, sep)
    decreases |s|
  {
    if |s| > 0 {
      PiecesBlankIff(s[1..], sep);
      OnlySeparatorsCons(s, sep);
      var rest := Split(s[1..], sep);
      if s[0] == sep {
        AllBlankCons("", rest);
      } else {
        assert rest == [rest[0]] + rest[1..];
        AllBlankCons(rest[0], rest[1..]);
        AllBlankCons([s[0]] + rest[0], rest[1..]);
        AllWhitespaceCons(s[0], rest[0]);
      }
    }
  }

  /** A split-trim-filter list is empty exactly when the string holds only
      separators and whitespace. */
  lemma SplitTrimmedEmptyIff(s: string, sep: char)
    requires !IsWhitespace(sep)
    ensures SplitTrimmed(s, sep) == [] <==> OnlySeparatorsOrWhitespace(s, sep)
  {
    var pieces := Split(s, sep);
    var trimmed := TrimEach(pieces);
    DropEmptyNil(trimmed);
    forall k | 0 <= k < |pieces|
      ensures trimmed[k] == "" <==> AllWhitespace(pieces[k])
    {
      TrimEmptyIff(pieces[k]);
    }
    PiecesBlankIff(s, sep);
    assert AllBlank(pieces) <==> forall k :: 0 <= k < |trimmed| ==> trimmed[k] == "";
  }
}
