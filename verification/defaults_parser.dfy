/**
 * The string routine of the service's start-up hook: Guava's
 * `Splitter.on(',').trimResults().omitEmptyStrings()` applied to the
 * configured default-category list.
 */
module DefaultsParser {

  /**
   * Guava's `CharMatcher.whitespace()`: the Unicode White_Space characters.
   * It is wider than Java's `String.trim` (no other control characters) and
   * includes the no-break and typographic spaces.
   */
  predicate IsWhitespace(c: char) {
    || ('\t' <= c <= '\r')
    || c == ' '
    || c == '\U{0085}'
    || c == '\U{00A0}'
    || c == '\U{1680}'
    || ('\U{2000}' <= c <= '\U{200A}')
    || c == '\U{2028}'
    || c == '\U{2029}'
    || c == '\U{202F}'
    || c == '\U{205F}'
    || c == '\U{3000}'
  }

  /**
   * `Splitter.on(sep)`: the pieces between separators, empty ones included,
   * so a string with k separators yields k + 1 pieces.
   */
  function Split(s: string, sep: char): (pieces: seq<string>)
    ensures |pieces| >= 1
    ensures forall p :: p in pieces ==> sep !in p
    decreases |s|
  {
    if s == [] then [[]]
    else
      var rest := Split(s[1..], sep);
      if s[0] == sep then [[]] + rest
      else [[s[0]] + rest[0]] + rest[1..]
  }

  /** The pieces glued back together with one separator between neighbours. */
  function Join(pieces: seq<string>, sep: char): string
    decreases |pieces|
  {
    if pieces == [] then []
    else if |pieces| == 1 then pieces[0]
    else pieces[0] + [sep] + Join(pieces[1..], sep)
  }

  /** Joining the pieces of `s` gives `s` back: splitting loses nothing. */
  lemma {:induction false} JoinSplit(s: string, sep: char)
    ensures Join(Split(s, sep), sep) == s
    decreases |s|
  {
    if s != [] {
      var rest := Split(s[1..], sep);
      JoinSplit(s[1..], sep);
      if s[0] == sep {
        assert Split(s, sep) == [[]] + rest;
        assert Join([[]] + rest, sep) == [] + [sep] + Join(rest, sep);
        assert s == [s[0]] + s[1..];
      } else {
        var pieces := [[s[0]] + rest[0]] + rest[1..];
        assert Split(s, sep) == pieces;
        if |rest| == 1 {
          assert Join(pieces, sep) == [s[0]] + rest[0];
        } else {
          assert pieces[1..] == rest[1..];
          assert Join(pieces, sep) == [s[0]] + rest[0] + [sep] + Join(rest[1..], sep);
          assert Join(rest, sep) == rest[0] + [sep] + Join(rest[1..], sep);
        }
        assert s == [s[0]] + s[1..];
      }
    }
  }

  /** A separator-free piece followed by a separator splits off as one piece. */
  lemma {:induction false} SplitAfterPiece(p: string, t: string, sep: char)
    requires sep !in p
    ensures Split(p + [sep] + t, sep) == [p] + Split(t, sep)
    ensures Split(p, sep) == [p]
    decreases |p|
  {
    if p == [] {
      assert [] + [sep] + t == [sep] + t;
      assert ([sep] + t)[1..] == t;
    } else {
      SplitAfterPiece(p[1..], t, sep);
      var s := p + [sep] + t;
      assert s[0] == p[0] && s[1..] == p[1..] + [sep] + t;
      assert p == [p[0]] + p[1..];
    }
  }

  /** Splitting a join of separator-free pieces gives the pieces back. */
  lemma {:induction false} SplitJoin(pieces: seq<string>, sep: char)
    requires |pieces| >= 1
    requires forall p :: p in pieces ==> sep !in p
    ensures Split(Join(pieces, sep), sep) == pieces
    decreases |pieces|
  {
    if |pieces| == 1 {
      SplitAfterPiece(pieces[0], [], sep);
    } else {
      assert forall p :: p in pieces[1..] ==> p in pieces;
      SplitJoin(pieces[1..], sep);
      SplitJoinStep(pieces, sep);
    }
  }

  /** The inductive step of `SplitJoin`: a first piece in front of a round-tripping rest. */
  lemma SplitJoinStep(pieces: seq<string>, sep: char)
    requires |pieces| >= 2 && sep !in pieces[0]
    requires Split(Join(pieces[1..], sep), sep) == pieces[1..]
    ensures Split(Join(pieces, sep), sep) == pieces
  {
    var t := Join(pieces[1..], sep);
    assert Join(pieces, sep) == pieces[0] + [sep] + t;
    SplitAfterPiece(pieces[0], t, sep);
    assert pieces == [pieces[0]] + pieces[1..];
  }

  /** The index of the first non-whitespace character of `s` at or after `i`, or `|s|`. */
  function SkipWhitespace(s: string, i: nat): (k: nat)
    requires i <= |s|
    ensures i <= k <= |s|
    ensures forall j :: i <= j < k ==> IsWhitespace(s[j])
    ensures k < |s| ==> !IsWhitespace(s[k])
    decreases |s| - i
  {
    if i == |s| || !IsWhitespace(s[i]) then i else SkipWhitespace(s, i + 1)
  }

  /**
   * The end of `s[lo..e]` once its trailing whitespace is dropped: the least
   * `k` such that `s[k..e]` is all whitespace.
   */
  function DropTrailingWhitespace(s: string, lo: nat, e: nat): (k: nat)
    requires lo <= e <= |s|
    ensures lo <= k <= e
    ensures forall j :: k <= j < e ==> IsWhitespace(s[j])
    ensures k > lo ==> !IsWhitespace(s[k - 1])
    decreases e
  {
    if e == lo || !IsWhitespace(s[e - 1]) then e else DropTrailingWhitespace(s, lo, e - 1)
  }

  /** Where the trimmed middle of `s` starts. */
  function TrimStart(s: string): (k: nat)
    ensures k <= |s|
    ensures forall i :: 0 <= i < k ==> IsWhitespace(s[i])
    ensures k < |s| ==> !IsWhitespace(s[k])
  {
    SkipWhitespace(s, 0)
  }

  /**
   * `trimResults()`: the middle of `s` left once whitespace is removed from
   * both ends; everything cut off is whitespace.
   */
  function Trim(s: string): (r: string)
    ensures r != [] ==> !IsWhitespace(r[0]) && !IsWhitespace(r[|r| - 1])
    ensures TrimStart(s) + |r| <= |s| && r == s[TrimStart(s)..TrimStart(s) + |r|]
    ensures forall i :: TrimStart(s) + |r| <= i < |s| ==> IsWhitespace(s[i])
  {
    var k := TrimStart(s);
    s[k..DropTrailingWhitespace(s, k, |s|)]
  }

  /** Every character of the trimmed string occurs in the original. */
  lemma TrimKeepsCharacters(s: string, c: char)
    requires c in Trim(s)
    ensures c in s
  {
    var k := TrimStart(s);
    var r := Trim(s);
    var i :| 0 <= i < |r| && r[i] == c;
    assert s[k + i] == c;
  }

  /** Trimming twice is trimming once. */
  lemma TrimIdempotent(s: string)
    ensures Trim(Trim(s)) == Trim(s)
  {
    var t := Trim(s);
    if t != [] {
      assert TrimStart(t) == 0;
      assert DropTrailingWhitespace(t, 0, |t|) == |t|;
    }
  }

  /** Each piece of `pieces`, trimmed. */
  function TrimAll(pieces: seq<string>): (r: seq<string>)
    ensures |r| == |pieces|
    ensures forall i :: 0 <= i < |r| ==> r[i] == Trim(pieces[i])
    ensures forall t :: t in r <==> exists p :: p in pieces && t == Trim(p)
  {
    var r := seq(|pieces|, i requires 0 <= i < |pieces| => Trim(pieces[i]));
    forall t | t in r ensures exists p :: p in pieces && t == Trim(p) {
      var i :| 0 <= i < |r| && r[i] == t;
      assert pieces[i] in pieces;
    }
    forall t | exists p :: p in pieces && t == Trim(p) ensures t in r {
      var p :| p in pieces && t == Trim(p);
      var i :| 0 <= i < |pieces| && pieces[i] == p;
      assert r[i] == t;
    }
    r
  }

  /**
   * The default categories named by `s`: split on commas, trim each piece,
   * drop the pieces that are then empty. The tokens are in input order.
   */
  function ParseDefaults(s: string): (tokens: seq<string>)
    ensures forall t :: t in tokens ==> t != [] && ',' !in t
    ensures forall t :: t in tokens ==> !IsWhitespace(t[0]) && !IsWhitespace(t[|t| - 1])
    ensures |tokens| <= |Split(s, ',')|
    ensures forall t :: t in tokens <==> t != [] && exists p :: p in Split(s, ',') && t == Trim(p)
  {
    var pieces := Split(s, ',');
    var trimmed := TrimAll(pieces);
    forall i | 0 <= i < |trimmed| ensures ',' !in trimmed[i] {
      assert pieces[i] in pieces;
      if ',' in trimmed[i] {
        TrimKeepsCharacters(pieces[i], ',');
      }
    }
    DropEmpty(trimmed)
  }

  /** `omitEmptyStrings()`: the non-empty elements, in order. */
  function DropEmpty(ts: seq<string>): (r: seq<string>)
    ensures |r| <= |ts|
    ensures forall t :: t in r <==> t in ts && t != []
    ensures (forall t :: t in ts ==> t != []) ==> r == ts
  {
    if ts == [] then []
    else
      var rest := DropEmpty(ts[1..]);
      assert ts == [ts[0]] + ts[1..];
      assert ts[0] in ts && forall t :: t in ts[1..] ==> t in ts;
      if ts[0] == [] then rest else [ts[0]] + rest
  }

  /** An empty setting names no categories: its one piece is empty. */
  lemma ParseEmpty()
    ensures ParseDefaults([]) == []
  {
    assert Split([], ',') == [[]];
    assert TrimAll([[]]) == [[]];
  }

  /** A name that the parser would produce unchanged. */
  predicate IsToken(t: string) {
    t != [] && ',' !in t && !IsWhitespace(t[0]) && !IsWhitespace(t[|t| - 1])
  }

  /** A token is its own trimmed form. */
  lemma TrimToken(t: string)
    requires IsToken(t)
    ensures Trim(t) == t
  {
  }

  /**
   * Parsing a comma-joined list of tokens gives the list back, in order and
   * with any repetitions: nothing is lost, reordered or merged.
   */
  lemma ParseJoin(tokens: seq<string>)
    requires forall t :: t in tokens ==> IsToken(t)
    ensures ParseDefaults(Join(tokens, ',')) == tokens
  {
    if tokens == [] {
      ParseEmpty();
      return;
    }
    SplitJoin(tokens, ',');
    var trimmed := TrimAll(tokens);
    forall i | 0 <= i < |tokens| ensures trimmed[i] == tokens[i] {
      TrimToken(tokens[i]);
    }
    assert trimmed == tokens;
  }

  /** A setting with spaces after the commas and an empty entry: `"a, b,,"` names `a` and `b`. */
  lemma ParseExample()
    ensures ParseDefaults("a, b,,") == ["a", "b"]
  {
    var pieces := ["a", " b", "", ""];
    ExampleSplit(pieces);
    var trimmed := ExampleTrim(pieces);
    ExampleDropEmpty(trimmed);
  }

  /** The pieces of the example, obtained from `SplitJoin`. */
  lemma ExampleSplit(pieces: seq<string>)
    requires pieces == ["a", " b", "", ""]
    ensures Split("a, b,,", ',') == pieces
  {
    assert Join(pieces[3..], ',') == "";
    assert Join(pieces[2..], ',') == ",";
    assert Join(pieces[1..], ',') == " b,,";
    assert Join(pieces, ',') == "a, b,,";
    SplitJoin(pieces, ',');
  }

  /** The example's pieces, trimmed. */
  lemma ExampleTrim(pieces: seq<string>) returns (trimmed: seq<string>)
    requires pieces == ["a", " b", "", ""]
    ensures TrimAll(pieces) == trimmed == ["a", "b", "", ""]
  {
    TrimToken("a");
    assert SkipWhitespace(" b", 1) == 1;
    assert Trim(" b") == "b";
    trimmed := TrimAll(pieces);
  }

  /** The example's empty trimmed pieces are dropped. */
  lemma ExampleDropEmpty(trimmed: seq<string>)
    requires trimmed == ["a", "b", "", ""]
    ensures DropEmpty(trimmed) == ["a", "b"]
  {
    assert trimmed[3..][1..] == [];
    assert trimmed[2..][1..] == trimmed[3..];
    assert trimmed[1..][1..] == trimmed[2..];
    assert DropEmpty(trimmed[2..]) == [];
  }
}
