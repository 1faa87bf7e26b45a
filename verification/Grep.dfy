/** The regular-expression matcher of xv6-public/grep.c. Its three functions backtrack by
    looping over a text pointer; the specification never mentions them: a pattern denotes a
    sequence of atoms, and a string belongs to it when it can be cut into one piece per atom. */
module Grep {

  // The characters of a NUL-terminated string.
  type CString = s: string | '\0' !in s

  // c stands for the single character ch.
  predicate Stands(c: char, ch: char) {
    c == '.' || c == ch
  }

  datatype Atom = One(c: char) | Many(c: char)
  datatype Pattern = Pattern(atoms: seq<Atom>, atEnd: bool)

  // '*' binds to the character before it only; '$' is an anchor only as the last character.
  function Parse(re: CString): Pattern {
    if re == "" then Pattern([], false)
    else if |re| > 1 && re[1] == '*' then
      var rest := Parse(re[2..]);
      Pattern([Many(re[0])] + rest.atoms, rest.atEnd)
    else if re == "$" then Pattern([], true)
    else
      var rest := Parse(re[1..]);
      Pattern([One(re[0])] + rest.atoms, rest.atEnd)
  }

  predicate Fits(a: Atom, w: string) {
    match a
    case One(c) => |w| == 1 && Stands(c, w[0])
    case Many(c) => forall i :: 0 <= i < |w| ==> Stands(c, w[i])
  }

  function Concat(pieces: seq<string>): string {
    if pieces == [] then "" else pieces[0] + Concat(pieces[1..])
  }

  ghost predicate Cut(atoms: seq<Atom>, w: string, pieces: seq<string>) {
    && |pieces| == |atoms|
    && Concat(pieces) == w
    && forall i :: 0 <= i < |atoms| ==> Fits(atoms[i], pieces[i])
  }

  ghost predicate InLanguage(atoms: seq<Atom>, w: string) {
    exists pieces: seq<string> :: Cut(atoms, w, pieces)
  }

  // The first k characters of text are a match of the pattern.
  ghost predicate PrefixMatch(p: Pattern, text: string, k: nat) {
    k <= |text| && InLanguage(p.atoms, text[..k]) && (p.atEnd ==> k == |text|)
  }

  ghost predicate MatchesHere(re: CString, text: string) {
    exists k: nat :: PrefixMatch(Parse(re), text, k)
  }

  ghost predicate Matches(re: CString, text: CString) {
    if re != "" && re[0] == '^' then MatchesHere(re[1..], text)
    else exists i: nat :: i <= |text| && MatchesHere(re, text[i..])
  }

  lemma CutCons(a: Atom, atoms: seq<Atom>, w: string, k: nat, pieces: seq<string>)
    requires k <= |w| && Fits(a, w[..k]) && Cut(atoms, w[k..], pieces)
    ensures Cut([a] + atoms, w, [w[..k]] + pieces)
  {
    assert ([w[..k]] + pieces)[1..] == pieces;
    assert w[..k] + w[k..] == w;
  }

  // A word of [a] + atoms splits into a piece for a and a word of atoms.
  lemma LanguageCons(a: Atom, atoms: seq<Atom>, w: string)
    ensures InLanguage([a] + atoms, w) <==>
            exists k: nat :: k <= |w| && Fits(a, w[..k]) && InLanguage(atoms, w[k..])
  {
    if InLanguage([a] + atoms, w) {
      var pieces: seq<string> :| Cut([a] + atoms, w, pieces);
      var k := |pieces[0]|;
      assert w[..k] == pieces[0] && w[k..] == Concat(pieces[1..]);
      assert Fits(([a] + atoms)[0], pieces[0]);
      forall i | 0 <= i < |atoms| ensures Fits(atoms[i], pieces[1..][i]) {
        assert ([a] + atoms)[i + 1] == atoms[i];
      }
      assert Cut(atoms, w[k..], pieces[1..]);
    }
    if k: nat :| k <= |w| && Fits(a, w[..k]) && InLanguage(atoms, w[k..]) {
      var pieces: seq<string> :| Cut(atoms, w[k..], pieces);
      CutCons(a, atoms, w, k, pieces);
    }
  }

  lemma EmptyLanguage(w: string)
    ensures InLanguage([], w) <==> w == ""
  {
    if w == "" { assert Cut([], w, []); }
  }

  lemma HereNothing(text: string)
    ensures MatchesHere("", text)
  {
    EmptyLanguage(text[..0]);
    assert PrefixMatch(Parse(""), text, 0);
  }

  lemma HereDollar(text: string)
    ensures MatchesHere("$", text) <==> text == ""
  {
    forall k: nat | k <= |text| ensures InLanguage([], text[..k]) <==> k == 0 { EmptyLanguage(text[..k]); }
    if text == "" { assert PrefixMatch(Parse("$"), text, 0); }
  }

  // Peeling the first atom off a pattern peels its piece off the text.
  lemma HereAtom(a: Atom, rest: CString, re: CString, text: string)
    requires Parse(re) == Pattern([a] + Parse(rest).atoms, Parse(rest).atEnd)
    ensures MatchesHere(re, text) <==>
            exists t: nat :: t <= |text| && Fits(a, text[..t]) && MatchesHere(rest, text[t..])
  {
    if k: nat :| PrefixMatch(Parse(re), text, k) {
      var t := FirstPiece(a, rest, text, k);
    }
    if t: nat :| t <= |text| && Fits(a, text[..t]) && MatchesHere(rest, text[t..]) {
      AddPiece(a, rest, re, text, t);
    }
  }

  lemma FirstPiece(a: Atom, rest: CString, text: string, k: nat) returns (t: nat)
    requires PrefixMatch(Pattern([a] + Parse(rest).atoms, Parse(rest).atEnd), text, k)
    ensures t <= |text| && Fits(a, text[..t]) && MatchesHere(rest, text[t..])
  {
    var p := Parse(rest);
    LanguageCons(a, p.atoms, text[..k]);
    t :| t <= k && Fits(a, text[..k][..t]) && InLanguage(p.atoms, text[..k][t..]);
    assert text[..k][..t] == text[..t] && text[..k][t..] == text[t..][..k - t];
    assert PrefixMatch(p, text[t..], k - t);
  }

  lemma AddPiece(a: Atom, rest: CString, re: CString, text: string, t: nat)
    requires Parse(re) == Pattern([a] + Parse(rest).atoms, Parse(rest).atEnd)
    requires t <= |text| && Fits(a, text[..t]) && MatchesHere(rest, text[t..])
    ensures MatchesHere(re, text)
  {
    var p := Parse(rest);
    var k: nat :| PrefixMatch(p, text[t..], k);
    var w := text[..t + k];
    assert w[..t] == text[..t] && w[t..] == text[t..][..k];
    LanguageCons(a, p.atoms, w);
    assert PrefixMatch(Parse(re), text, t + k);
  }

  lemma HereStar(c: char, rest: CString, re: CString, text: string)
    requires re == [c, '*'] + rest
    ensures MatchesHere(re, text) <==>
            exists t: nat :: t <= |text| && Fits(Many(c), text[..t]) && MatchesHere(rest, text[t..])
  {
    assert re[2..] == rest;
    HereAtom(Many(c), rest, re, text);
  }

  lemma HereOne(re: CString, text: string)
    requires re != "" && !(|re| > 1 && re[1] == '*') && re != "$"
    ensures MatchesHere(re, text) <==>
            text != "" && Stands(re[0], text[0]) && MatchesHere(re[1..], text[1..])
  {
    HereAtom(One(re[0]), re[1..], re, text);
    if text != "" && Stands(re[0], text[0]) && MatchesHere(re[1..], text[1..]) {
      assert Fits(One(re[0]), text[..1]);
    }
  }

  method Match(re: CString, text: CString) returns (found: bool)
    ensures found <==> Matches(re, text)
  {
    if re != "" && re[0] == '^' {
      found := MatchHere(re[1..], text);
      return;
    }
    var t := 0;
    while true
      invariant 0 <= t <= |text|
      invariant forall i :: 0 <= i < t ==> !MatchesHere(re, text[i..])
      decreases |text| - t
    {
      found := MatchHere(re, text[t..]);
      if found { return; }
      if t == |text| { return; }
      t := t + 1;
    }
  }

  method MatchHere(re: CString, text: CString) returns (found: bool)
    ensures found <==> MatchesHere(re, text)
    decreases |re|, 0
  {
    if re == "" {
      HereNothing(text);
      return true;
    }
    if |re| > 1 && re[1] == '*' {
      assert re == [re[0], '*'] + re[2..];
      HereStar(re[0], re[2..], re, text);
      found := MatchStar(re[0], re[2..], text);
      return;
    }
    if re == "$" {
      HereDollar(text);
      return text == "";
    }
    HereOne(re, text);
    if text != "" && (re[0] == '.' || re[0] == text[0]) {
      found := MatchHere(re[1..], text[1..]);
      return;
    }
    return false;
  }

  method MatchStar(c: char, re: CString, text: CString) returns (found: bool)
    ensures found <==> exists t: nat :: t <= |text| && Fits(Many(c), text[..t]) && MatchesHere(re, text[t..])
    decreases |re|, 1
  {
    var t := 0;
    while true
      invariant 0 <= t <= |text|
      invariant Fits(Many(c), text[..t])
      invariant forall i :: 0 <= i < t ==> !MatchesHere(re, text[i..])
      decreases |text| - t
    {
      found := MatchHere(re, text[t..]);
      if found { return; }
      if t == |text| { return; }
      if !(text[t] == c || c == '.') {
        assert forall u: nat :: t < u <= |text| ==> text[..u][t] == text[t] && !Fits(Many(c), text[..u]);
        return;
      }
      t := t + 1;
    }
  }
}
