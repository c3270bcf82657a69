/** Splitting the body of a brace group on its top-level commas. */
module Splitter {
  import opened Sublists

  /** White space, as Python's strings define it. */
  predicate IsSpace(c: char) {
    || '\U{0009}' <= c <= '\U{000D}' || '\U{001C}' <= c <= '\U{0020}' || c == '\U{0085}' || c == '\U{00A0}' || c == '\U{1680}'
    || '\U{2000}' <= c <= '\U{200A}' || c == '\U{2028}' || c == '\U{2029}' || c == '\U{202F}' || c == '\U{205F}' || c == '\U{3000}'
  }

  function StripLeft(s: string): string {
    if s != "" && IsSpace(s[0]) then StripLeft(s[1..]) else s
  }

  function StripRight(s: string): string {
    if s != "" && IsSpace(s[|s| - 1]) then StripRight(s[..|s| - 1]) else s
  }

  function Strip(s: string): string {
    StripRight(StripLeft(s))
  }

  /** The pieces without surrounding white space; those with nothing else are dropped. */
  function Tidy(parts: seq<string>): seq<string> {
    if parts == [] then []
    else TidyOne(parts[0]) + Tidy(parts[1..])
  }

  function Delta(c: char): int {
    if c == '{' then 1 else if c == '}' then -1 else 0
  }

  function Depth(s: string): int {
    if s == "" then 0 else Delta(s[0]) + Depth(s[1..])
  }

  /** No comma of `s` is met at depth zero when `s` starts at depth `d`. */
  predicate NoTopComma(s: string, d: int) {
    s != "" ==> !(s[0] == ',' && d == 0) && NoTopComma(s[1..], d + Delta(s[0]))
  }

  function Join(parts: seq<string>): string {
    if parts == [] then "" else if |parts| == 1 then parts[0] else parts[0] + "," + Join(parts[1..])
  }

  /** The pieces of `body`, read from depth `d` with `cur` already collected. */
  function Pieces(body: string, d: int, cur: string): seq<string>
    decreases |body|
  {
    if body == "" then (if cur != "" then [cur] else [])
    else if body[0] == ',' && d == 0 then [cur] + Pieces(body[1..], d, "")
    else Pieces(body[1..], d + Delta(body[0]), cur + [body[0]])
  }

  method SplitTopLevel(body: string) returns (parts: seq<string>)
    ensures parts == Tidy(Pieces(body, 0, ""))
  {
    var raw: seq<string> := [];
    var depth := 0;
    var cur := "";
    for i := 0 to |body|
      invariant Pieces(body, 0, "") == raw + Pieces(body[i..], depth, cur)
    {
      var ch := body[i];
      assert body[i..][1..] == body[i + 1..];
      if ch == '{' {
        depth := depth + 1;
        cur := cur + [ch];
      } else if ch == '}' {
        depth := depth - 1;
        cur := cur + [ch];
      } else if ch == ',' && depth == 0 {
        raw := raw + [cur];
        cur := "";
      } else {
        cur := cur + [ch];
      }
    }
    assert body[|body|..] == "";
    if cur != "" {
      raw := raw + [cur];
    } else {
      assert raw + [] == raw;
    }
    parts := TidyList(raw);
  }

  /** What one piece contributes. */
  function TidyOne(p: string): seq<string> {
    if Strip(p) != "" then [Strip(p)] else []
  }

  lemma TidyStep(raw: seq<string>, i: nat, parts: seq<string>)
    requires i < |raw|
    ensures parts + Tidy(raw[i..]) == (parts + TidyOne(raw[i])) + Tidy(raw[i + 1..])
  {
  }

  method TidyList(raw: seq<string>) returns (parts: seq<string>)
    ensures parts == Tidy(raw)
  {
    parts := [];
    assert raw[0..] == raw;
    for i := 0 to |raw|
      invariant Tidy(raw) == parts + Tidy(raw[i..])
    {
      TidyStep(raw, i, parts);
      if Strip(raw[i]) != "" {
        parts := parts + [Strip(raw[i])];
      } else {
        assert parts + [] == parts;
      }
    }
  }

  // ---------------------------------------------------------------- split after join

  lemma {:induction false} PiecesSkip(e: string, rest: string, d: int, cur: string)
    requires NoTopComma(e, d)
    ensures Pieces(e + rest, d, cur) == Pieces(rest, d + Depth(e), cur + e)
    decreases |e|
  {
    if e == "" {
      assert e + rest == rest && cur + e == cur;
    } else {
      assert (e + rest)[1..] == e[1..] + rest;
      PiecesSkip(e[1..], rest, d + Delta(e[0]), cur + [e[0]]);
      assert cur + [e[0]] + e[1..] == cur + e;
    }
  }

  /** No piece has a comma at depth zero, and braces balance in all but the last. */
  ghost predicate CommaFree(parts: seq<string>) {
    && (forall i :: 0 <= i < |parts| ==> NoTopComma(parts[i], 0))
    && (forall i :: 0 <= i < |parts| - 1 ==> Depth(parts[i]) == 0)
  }

  lemma CommaFreeCons(cur: string, rest: seq<string>)
    requires NoTopComma(cur, 0) && Depth(cur) == 0 && CommaFree(rest)
    ensures CommaFree([cur] + rest)
  {
  }

  /** A list that splitting can give back. */
  ghost predicate Splittable(parts: seq<string>) {
    CommaFree(parts) && (parts != [] ==> parts[|parts| - 1] != "")
  }

  lemma SplittableTail(parts: seq<string>)
    requires Splittable(parts) && |parts| > 1
    ensures Splittable(parts[1..])
  {
  }

  lemma PiecesAtComma(rest: string, cur: string)
    ensures Pieces("," + rest, 0, cur) == [cur] + Pieces(rest, 0, "")
  {
  }

  lemma PiecesPastEntry(e: string, rest: string)
    requires NoTopComma(e, 0) && Depth(e) == 0
    ensures Pieces(e + "," + rest, 0, "") == [e] + Pieces(rest, 0, "")
  {
    assert e + "," + rest == e + ("," + rest) && "" + e == e;
    PiecesSkip(e, "," + rest, 0, "");
    PiecesAtComma(rest, e);
  }

  lemma {:induction false} PiecesOfJoin(parts: seq<string>)
    requires Splittable(parts)
    ensures Pieces(Join(parts), 0, "") == parts
    decreases |parts|
  {
    if parts != [] {
      var e, others := parts[0], parts[1..];
      assert "" + e == e && parts == [e] + others;
      if others == [] {
        PiecesSkip(e, "", 0, "");
        assert e + "" == e;
      } else {
        SplittableTail(parts);
        PiecesOfJoin(others);
        JoinHead(e, others);
        PiecesPastEntry(e, Join(others));
      }
    }
  }

  /** An entry as it is written in a group: trimmed, non-empty, balanced, with no
      comma outside braces. */
  ghost predicate IsEntry(e: string) {
    e != "" && Strip(e) == e && Depth(e) == 0 && NoTopComma(e, 0)
  }

  lemma {:induction false} TidyTrims(parts: seq<string>, entries: seq<string>)
    requires |parts| == |entries|
    requires forall i :: 0 <= i < |parts| ==> Strip(parts[i]) == entries[i] != ""
    ensures Tidy(parts) == entries
    decreases |parts|
  {
    if parts != [] {
      TidyTrims(parts[1..], entries[1..]);
    }
  }

  /** Splitting undoes joining. */
  lemma SplitUndoesJoin(entries: seq<string>)
    requires forall i :: 0 <= i < |entries| ==> IsEntry(entries[i])
    ensures Tidy(Pieces(Join(entries), 0, "")) == entries
  {
    PiecesOfJoin(entries);
    TidyTrims(entries, entries);
  }

  /** It does so as well when the entries were padded with white space. */
  lemma SplitUndoesPaddedJoin(padded: seq<string>, entries: seq<string>)
    requires |padded| == |entries| && Splittable(padded)
    requires forall i :: 0 <= i < |entries| ==> Strip(padded[i]) == entries[i] != ""
    ensures Tidy(Pieces(Join(padded), 0, "")) == entries
  {
    PiecesOfJoin(padded);
    TidyTrims(padded, entries);
  }

  // ---------------------------------------------------------------- join after split

  /** The body ends with a comma that splits. */
  predicate EndsAtTop(body: string, d: int) {
    body != "" && body[|body| - 1] == ',' && d + Depth(body[..|body| - 1]) == 0
  }

  lemma EndsAtTopTail(body: string, d: int)
    requires |body| > 1
    ensures EndsAtTop(body, d) <==> EndsAtTop(body[1..], d + Delta(body[0]))
  {
    var tail := body[1..];
    assert body[..|body| - 1] == [body[0]] + tail[..|tail| - 1];
    DepthHead(body[0], tail[..|tail| - 1]);
  }

  lemma JoinHead(cur: string, rest: seq<string>)
    ensures Join([cur] + rest) == if rest == [] then cur else cur + "," + Join(rest)
  {
  }

  lemma {:induction false} JoinOfPieces(body: string, d: int, cur: string)
    ensures Join(Pieces(body, d, cur)) + (if EndsAtTop(body, d) then "," else "") == cur + body
    decreases |body|
  {
    if body == "" {
      assert cur + body == cur;
    } else {
      if |body| > 1 {
        EndsAtTopTail(body, d);
      } else {
        assert body[..0] == "" && body == [body[0]];
      }
      var tail := body[1..];
      assert body == [body[0]] + tail;
      if body[0] == ',' && d == 0 {
        JoinOfPieces(tail, 0, "");
        var rest := Pieces(tail, 0, "");
        JoinHead(cur, rest);
        if rest == [] {
          EmptyPieces(tail, 0, "");
        } else {
          assert "" + tail == tail;
          assert tail != "";
          JoinedTail(cur, Join(rest), if EndsAtTop(tail, 0) then "," else "", tail);
        }
      } else {
        JoinOfPieces(tail, d + Delta(body[0]), cur + [body[0]]);
        assert cur + [body[0]] + tail == cur + body;
      }
    }
  }

  lemma JoinedTail(cur: string, joined: string, end: string, tail: string)
    requires joined + end == tail
    ensures (cur + "," + joined) + end == cur + ("," + tail)
  {
  }

  lemma {:induction false} EmptyPieces(body: string, d: int, cur: string)
    requires Pieces(body, d, cur) == []
    ensures body == "" && cur == ""
    decreases |body|
  {
    if body != "" && !(body[0] == ',' && d == 0) {
      EmptyPieces(body[1..], d + Delta(body[0]), cur + [body[0]]);
    }
  }

  lemma {:induction false} CommaFreeAppend(s: string, d: int, c: char)
    requires NoTopComma(s, d) && !(c == ',' && d + Depth(s) == 0)
    ensures NoTopComma(s + [c], d) && Depth(s + [c]) == Depth(s) + Delta(c)
    decreases |s|
  {
    if s != "" {
      assert (s + [c])[1..] == s[1..] + [c];
      CommaFreeAppend(s[1..], d + Delta(s[0]), c);
    }
  }

  /** Only commas at depth zero split, and all of them do. */
  lemma {:induction false} PiecesAreCommaFree(body: string, cur: string)
    requires NoTopComma(cur, 0)
    ensures CommaFree(Pieces(body, Depth(cur), cur))
    decreases |body|
  {
    if body != "" {
      var c := body[0];
      if c == ',' && Depth(cur) == 0 {
        PiecesAreCommaFree(body[1..], "");
        CommaFreeCons(cur, Pieces(body[1..], 0, ""));
        assert Pieces(body, Depth(cur), cur) == [cur] + Pieces(body[1..], 0, "");
      } else {
        CommaFreeAppend(cur, 0, c);
        PiecesAreCommaFree(body[1..], cur + [c]);
        assert Pieces(body, Depth(cur), cur) == Pieces(body[1..], Depth(cur + [c]), cur + [c]);
      }
    }
  }

  lemma {:induction false} LastPiece(body: string, d: int, cur: string)
    requires !EndsAtTop(body, d)
    ensures var parts := Pieces(body, d, cur);
            parts != [] ==> parts[|parts| - 1] != ""
    decreases |body|
  {
    if body != "" {
      var tail := body[1..];
      if |body| > 1 {
        EndsAtTopTail(body, d);
      } else {
        assert body[..0] == "";
      }
      if body[0] == ',' && d == 0 {
        LastPiece(tail, 0, "");
        if Pieces(tail, 0, "") == [] {
          EmptyPieces(tail, 0, "");
        }
      } else {
        LastPiece(tail, d + Delta(body[0]), cur + [body[0]]);
      }
    }
  }

  lemma DepthHead(c: char, s: string)
    ensures Depth([c] + s) == Delta(c) + Depth(s)
  {
  }

  /** Without a comma that splits at its very end, the pieces of a body are the
      one list of this kind that joins to it. */
  lemma PiecesAreTheSplit(body: string, parts: seq<string>)
    requires !EndsAtTop(body, 0)
    ensures parts == Pieces(body, 0, "") <==> Splittable(parts) && Join(parts) == body
  {
    PiecesAreCommaFree(body, "");
    assert Depth("") == 0;
    LastPiece(body, 0, "");
    JoinOfPieces(body, 0, "");
    assert "" + body == body && Join(Pieces(body, 0, "")) + "" == Join(Pieces(body, 0, ""));
    if Splittable(parts) && Join(parts) == body {
      PiecesOfJoin(parts);
    }
  }

  /** A comma that splits at the very end makes no further piece. */
  lemma TrailingCommaDropped(body: string)
    requires EndsAtTop(body, 0)
    ensures Join(Pieces(body, 0, "")) == body[..|body| - 1]
  {
    JoinOfPieces(body, 0, "");
    var joined := Join(Pieces(body, 0, ""));
    assert joined + "," == "" + body == body;
    assert joined == body[..|body| - 1];
  }

  /** Every entry returned is trimmed and not empty. */
  lemma {:induction false} TidyIsTidy(parts: seq<string>)
    ensures forall e :: e in Tidy(parts) ==> e != "" && Strip(e) == e
    decreases |parts|
  {
    if parts != [] {
      TidyIsTidy(parts[1..]);
      StripTwice(parts[0]);
    }
  }

  lemma {:induction false} StripLeftEnds(s: string)
    ensures StripLeft(s) == "" || !IsSpace(StripLeft(s)[0])
    decreases |s|
  {
    if s != "" && IsSpace(s[0]) {
      StripLeftEnds(s[1..]);
    }
  }

  lemma {:induction false} StripRightEnds(s: string)
    ensures StripRight(s) <= s
    ensures StripRight(s) == "" || !IsSpace(StripRight(s)[|StripRight(s)| - 1])
    decreases |s|
  {
    if s != "" && IsSpace(s[|s| - 1]) {
      StripRightEnds(s[..|s| - 1]);
    }
  }

  lemma StripTwice(s: string)
    ensures Strip(Strip(s)) == Strip(s)
  {
    StripLeftEnds(s);
    StripRightEnds(StripLeft(s));
  }

  // ---------------------------------------------------------------- trimming and depth, place by place

  /** The white space of Python's strings, by code point. */
  lemma SpaceMeaning(c: char)
    ensures IsSpace(c) <==>
              || 9 <= c as int <= 13 || 28 <= c as int <= 32
              || c as int in {0x85, 0xA0, 0x1680, 0x2028, 0x2029, 0x202F, 0x205F, 0x3000}
              || 0x2000 <= c as int <= 0x200A
  {
  }

  ghost predicate AllSpace(s: string) {
    forall i :: 0 <= i < |s| ==> IsSpace(s[i])
  }

  lemma {:induction false} StripLeftCuts(s: string) returns (l: nat)
    ensures l <= |s| && StripLeft(s) == s[l..] && AllSpace(s[..l])
    decreases |s|
  {
    if s != "" && IsSpace(s[0]) {
      var m := StripLeftCuts(s[1..]);
      l := m + 1;
      assert s[1..][m..] == s[l..] && s[..l] == [s[0]] + s[1..][..m];
    } else {
      l := 0;
    }
  }

  lemma {:induction false} StripRightCuts(s: string)
    ensures StripRight(s) <= s && AllSpace(s[|StripRight(s)|..])
    decreases |s|
  {
    if s != "" && IsSpace(s[|s| - 1]) {
      var n, r := |s| - 1, |StripRight(s[..|s| - 1])|;
      StripRightCuts(s[..n]);
      assert s[r..] == s[..n][r..] + [s[n]];
    }
  }

  /** Trimming takes the white space off both ends and nothing else. */
  lemma StripMeaning(s: string) returns (l: nat, r: nat)
    ensures l <= r <= |s| && Strip(s) == s[l..r] && AllSpace(s[..l]) && AllSpace(s[r..])
    ensures Strip(s) != "" ==> !IsSpace(s[l]) && !IsSpace(s[r - 1])
  {
    l := StripLeftCuts(s);
    var t := StripLeft(s);
    StripRightCuts(t);
    StripLeftEnds(s);
    StripRightEnds(t);
    r := l + |StripRight(t)|;
    assert t[|StripRight(t)|..] == s[r..];
    assert Strip(s) == t[..|StripRight(t)|] == s[l..r];
  }

  ghost function PlacesOf(s: string, c: char): set<nat> {
    set i: nat | i < |s| && s[i] == c
  }

  /** The depth is the number of opening braces minus that of closing ones. */
  lemma {:induction false} DepthMeaning(s: string)
    ensures Depth(s) == |PlacesOf(s, '{')| - |PlacesOf(s, '}')|
    decreases |s|
  {
    if s == "" {
      assert PlacesOf(s, '{') == {} == PlacesOf(s, '}');
    } else {
      var n := |s| - 1;
      DepthMeaning(s[..n]);
      DepthLast(s[..n], s[n]);
      assert s == s[..n] + [s[n]];
      PlacesLast(s, '{');
      PlacesLast(s, '}');
    }
  }

  lemma PlacesLast(s: string, c: char)
    requires s != ""
    ensures |PlacesOf(s, c)| == |PlacesOf(s[..|s| - 1], c)| + (if s[|s| - 1] == c then 1 else 0)
  {
    var n := |s| - 1;
    assert PlacesOf(s, c) == PlacesOf(s[..n], c) + (if s[n] == c then {n} else {});
  }

  lemma {:induction false} DepthLast(s: string, c: char)
    ensures Depth(s + [c]) == Depth(s) + Delta(c)
    decreases |s|
  {
    if s != "" {
      assert (s + [c])[1..] == s[1..] + [c];
      DepthLast(s[1..], c);
    }
  }

  // ---------------------------------------------------------------- which pieces are kept

  ghost function Trimmed(parts: seq<string>): seq<string> {
    seq(|parts|, i requires 0 <= i < |parts| => Strip(parts[i]))
  }

  ghost function NotBlank(parts: seq<string>): set<nat> {
    set i: nat | i < |parts| && Strip(parts[i]) != ""
  }

  lemma {:induction false} TidyLast(parts: seq<string>, p: string)
    ensures Tidy(parts + [p]) == Tidy(parts) + TidyOne(p)
    decreases |parts|
  {
    if parts == [] {
      assert parts + [p] == [p] && [p][1..] == [];
      assert TidyOne(p) + [] == TidyOne(p);
    } else {
      assert (parts + [p])[1..] == parts[1..] + [p];
      TidyLast(parts[1..], p);
    }
  }

  /** The entries are the trimmed pieces in their order, without the blank ones. */
  lemma {:induction false} TidyMeaning(parts: seq<string>)
    ensures Sublist(Tidy(parts), Trimmed(parts), NotBlank(parts))
    decreases |parts|
  {
    if parts == [] {
      SublistEmpty<string>();
      assert Trimmed(parts) == [] && NotBlank(parts) == {};
    } else {
      var n := |parts| - 1;
      TidyMeaning(parts[..n]);
      TidyLast(parts[..n], parts[n]);
      assert parts == parts[..n] + [parts[n]];
      assert Trimmed(parts)[..n] == Trimmed(parts[..n]);
      assert NotBlank(parts) == NotBlank(parts[..n]) + (if TidyOne(parts[n]) == [] then {} else {n});
      SublistStep(Tidy(parts[..n]), Trimmed(parts), NotBlank(parts[..n]), TidyOne(parts[n]), NotBlank(parts));
    }
  }
}
