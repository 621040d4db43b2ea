/**
 SQL LIKE patterns and their translation to regular expressions.

 The translation emits text.  Its meaning is taken from that text, by a reader for
 the fragment of the regular-expression syntax it uses; the meaning of LIKE is
 defined on the pattern itself.
 */
module LikePatterns {
  import opened Wrappers

  // ---- LIKE ----

  /** `%` any string, `_` any character, `\` makes the next character literal; a trailing `\` is dropped. */
  ghost predicate Like(pattern: string, s: string)
    decreases |pattern|
  {
    if pattern == "" then s == ""
    else
      var c, rest := pattern[0], pattern[1..];
      if c == '\\' then
        if rest == "" then s == ""
        else s != "" && s[0] == rest[0] && Like(rest[1..], s[1..])
      else if c == '%' then exists n :: 0 <= n <= |s| && Like(rest, s[n..])
      else if c == '_' then s != "" && Like(rest, s[1..])
      else s != "" && s[0] == c && Like(rest, s[1..])
  }

  // ---- regular expressions, as far as the translation needs them ----

  datatype Atom = Literal(c: char) | Dot

  /** One atom, perhaps repeated any number of times. */
  datatype Item = Item(atom: Atom, starred: bool)

  datatype Regex = Regex(dotAll: bool, anchoredStart: bool, items: seq<Item>, anchoredEnd: bool)

  predicate IsMeta(c: char) {
    c in ".+*?()[]{}\\^$|"
  }

  /** Read the items up to an optional final `$`; `None` outside the fragment. */
  function ReadItems(text: string): Option<(seq<Item>, bool)>
    decreases |text|
  {
    if text == "" then Some(([], false))
    else if text == "$" then Some(([], true))
    else
      var escaped := text[0] == '\\';
      if escaped && |text| == 1 then None
      else if !escaped && text[0] != '.' && IsMeta(text[0]) then None
      else
        var atom := if escaped then Literal(text[1]) else if text[0] == '.' then Dot else Literal(text[0]);
        var rest := text[if escaped then 2 else 1..];
        var starred := rest != "" && rest[0] == '*';
        match ReadItems(if starred then rest[1..] else rest)
        case None => None
        case Some((items, end)) => Some(([Item(atom, starred)] + items, end))
  }

  function ReadRegex(text: string): Option<Regex> {
    var dotAll := |text| >= 4 && text[..4] == "(?s)";
    var body := if dotAll then text[4..] else text;
    var anchored := body != "" && body[0] == '^';
    match ReadItems(if anchored then body[1..] else body)
    case None => None
    case Some((items, end)) => Some(Regex(dotAll, anchored, items, end))
  }

  predicate AtomAccepts(dotAll: bool, a: Atom, c: char) {
    match a case Literal(x) => x == c case Dot => dotAll || c != '\n'
  }

  /** The items match the whole of `s`. */
  ghost predicate ItemsMatch(dotAll: bool, items: seq<Item>, s: string)
    decreases |items|
  {
    if items == [] then s == ""
    else if items[0].starred then
      exists n :: 0 <= n <= |s| && (forall i :: 0 <= i < n ==> AtomAccepts(dotAll, items[0].atom, s[i]))
                  && ItemsMatch(dotAll, items[1..], s[n..])
    else s != "" && AtomAccepts(dotAll, items[0].atom, s[0]) && ItemsMatch(dotAll, items[1..], s[1..])
  }

  /** `is_match`: some substring matches, at the ends where the expression is anchored. */
  ghost predicate IsMatch(r: Regex, s: string) {
    exists i, j :: 0 <= i <= j <= |s| && (r.anchoredStart ==> i == 0) && (r.anchoredEnd ==> j == |s|)
                   && ItemsMatch(r.dotAll, r.items, s[i..j])
  }

  // ---- the translation ----

  /** One literal character of the pattern. */
  function Quoted(c: char): string { if IsMeta(c) then ['\\', c] else [c] }

  /** The text emitted for the front of a pattern, and how many characters it stands for. */
  function Emitted(pattern: string): (r: (string, nat))
    requires pattern != ""
    ensures 0 < r.1 <= |pattern|
  {
    var c := pattern[0];
    if c == '\\' then if |pattern| == 1 then ("", 1) else (Quoted(pattern[1]), 2)
    else if c == '%' then (".*", 1)
    else if c == '_' then (".", 1)
    else (Quoted(c), 1)
  }

  function Translated(pattern: string): string
    decreases |pattern|
  {
    if pattern == "" then ""
    else
      var (text, n) := Emitted(pattern);
      text + Translated(pattern[n..])
  }

  lemma TranslatedStep(done: string, pattern: string, rest: string)
    requires rest != "" && done + Translated(rest) == Translated(pattern)
    ensures done + Emitted(rest).0 + Translated(rest[Emitted(rest).1..]) == Translated(pattern)
  {
  }

  /** The text between the anchors. */
  method TranslateBody(pattern: string) returns (body: string)
    ensures body == Translated(pattern)
  {
    body := "";
    var i := 0;
    while i < |pattern|
      invariant 0 <= i <= |pattern|
      invariant body + Translated(pattern[i..]) == Translated(pattern)
    {
      ghost var rest := pattern[i..];
      TranslatedStep(body, pattern, rest);
      var c := pattern[i];
      i := i + 1;
      if c == '\\' {
        if i < |pattern| {
          body := body + Quoted(pattern[i]);
          i := i + 1;
        } else {
          assert body + "" == body;
        }
      } else if c == '%' {
        body := body + ".*";
      } else if c == '_' {
        body := body + ".";
      } else {
        body := body + Quoted(c);
      }
      assert pattern[i..] == rest[Emitted(rest).1..];
    }
    assert pattern[i..] == "";
  }

  method LikeToRegex(pattern: string) returns (regex: string)
    ensures regex == "(?s)^" + Translated(pattern) + "$"
    ensures ReadRegex(regex).Some? && forall s :: IsMatch(ReadRegex(regex).value, s) <==> Like(pattern, s)
  {
    var body := TranslateBody(pattern);
    regex := "(?s)^" + body + "$";
    TranslationPreservesMeaning(pattern, "");
    forall s ensures IsMatch(ReadRegex(regex).value, s) <==> Like(pattern, s) {
      TranslationPreservesMeaning(pattern, s);
    }
  }

  // ---- the emitted text means the pattern ----

  /** The items for the front of a pattern: one, or none for a trailing backslash. */
  function FrontItems(pattern: string): seq<Item>
    requires pattern != ""
  {
    var c := pattern[0];
    if c == '\\' then if |pattern| == 1 then [] else [Item(Literal(pattern[1]), false)]
    else if c == '%' then [Item(Dot, true)]
    else if c == '_' then [Item(Dot, false)]
    else [Item(Literal(c), false)]
  }

  function ItemsOf(pattern: string): seq<Item>
    decreases |pattern|
  {
    if pattern == "" then [] else FrontItems(pattern) + ItemsOf(pattern[Emitted(pattern).1..])
  }

  function Prepend(items: seq<Item>, r: Option<(seq<Item>, bool)>): Option<(seq<Item>, bool)> {
    match r case None => None case Some((rest, end)) => Some((items + rest, end))
  }

  lemma ReadQuoted(c: char, tail: string)
    requires tail != "" && tail[0] != '*'
    ensures ReadItems(Quoted(c) + tail) == Prepend([Item(Literal(c), false)], ReadItems(tail))
  {
    var text := Quoted(c) + tail;
    if IsMeta(c) {
      assert text[0] == '\\' && text[1] == c && text[2..] == tail;
    } else {
      assert text[0] == c && text[1..] == tail;
      assert c != '.' && c != '\\' && c != '$';
    }
  }

  lemma ReadDot(tail: string)
    requires tail != "" && tail[0] != '*'
    ensures ReadItems("." + tail) == Prepend([Item(Dot, false)], ReadItems(tail))
  {
    assert ("." + tail)[1..] == tail;
  }

  lemma ReadDotStar(tail: string)
    ensures ReadItems(".*" + tail) == Prepend([Item(Dot, true)], ReadItems(tail))
  {
    var text := ".*" + tail;
    assert text[0] == '.' && text[1..][0] == '*' && text[1..][1..] == tail;
  }

  /** Reading the text emitted for the front of a pattern gives its items. */
  lemma ReadFront(pattern: string, tail: string)
    requires pattern != "" && tail != "" && tail[0] != '*'
    ensures ReadItems(Emitted(pattern).0 + tail) == Prepend(FrontItems(pattern), ReadItems(tail))
  {
    var c := pattern[0];
    if c == '\\' {
      if |pattern| == 1 {
        assert "" + tail == tail;
        assert forall items: seq<Item> :: [] + items == items;
      } else { ReadQuoted(pattern[1], tail); }
    } else if c == '%' {
      ReadDotStar(tail);
    } else if c == '_' {
      ReadDot(tail);
    } else {
      ReadQuoted(c, tail);
    }
  }

  /** An unescaped `*` only ever follows the dot of `%`. */
  lemma {:induction false} NoLeadingStar(pattern: string)
    ensures (Translated(pattern) + "$")[0] != '*'
    decreases |pattern|
  {
    if pattern != "" {
      var (text, n) := Emitted(pattern);
      NoLeadingStar(pattern[n..]);
      if text == "" {
        assert Translated(pattern) == Translated(pattern[n..]);
      } else {
        assert text[0] != '*';
      }
    }
  }

  lemma {:induction false} TranslationReadsBack(pattern: string)
    ensures ReadItems(Translated(pattern) + "$") == Some((ItemsOf(pattern), true))
    decreases |pattern|
  {
    if pattern == "" {
      assert "" + "$" == "$";
    } else {
      var (text, n) := Emitted(pattern);
      var tail := Translated(pattern[n..]) + "$";
      TranslationReadsBack(pattern[n..]);
      NoLeadingStar(pattern[n..]);
      ReadFront(pattern, tail);
      assert Translated(pattern) + "$" == text + tail;
    }
  }

  lemma {:induction false} ItemsMeanLike(pattern: string, s: string)
    ensures ItemsMatch(true, ItemsOf(pattern), s) <==> Like(pattern, s)
    decreases |pattern|
  {
    if pattern != "" {
      var n := Emitted(pattern).1;
      var rest := pattern[n..];
      assert n == 2 ==> pattern[1..][1..] == rest;
      if FrontItems(pattern) == [] {
        assert ItemsOf(pattern) == ItemsOf(rest) == [];
      } else {
        assert ItemsOf(pattern)[0] == FrontItems(pattern)[0] && ItemsOf(pattern)[1..] == ItemsOf(rest);
        if pattern[0] == '%' {
          forall k | 0 <= k <= |s| ensures ItemsMatch(true, ItemsOf(rest), s[k..]) <==> Like(rest, s[k..]) {
            ItemsMeanLike(rest, s[k..]);
          }
          PercentMeansAny(pattern, ItemsOf(pattern), s);
        } else if s != "" {
          ItemsMeanLike(rest, s[1..]);
        }
      }
    }
  }

  lemma PercentMeansAny(pattern: string, items: seq<Item>, s: string)
    requires pattern != "" && pattern[0] == '%' && items != [] && items[0] == Item(Dot, true)
    requires forall k :: 0 <= k <= |s| ==> (ItemsMatch(true, items[1..], s[k..]) <==> Like(pattern[1..], s[k..]))
    ensures ItemsMatch(true, items, s) <==> Like(pattern, s)
  {
    if ItemsMatch(true, items, s) {
      var k :| 0 <= k <= |s| && ItemsMatch(true, items[1..], s[k..]);
      assert Like(pattern[1..], s[k..]);
    }
    if Like(pattern, s) {
      var k :| 0 <= k <= |s| && Like(pattern[1..], s[k..]);
      assert ItemsMatch(true, items[1..], s[k..]);
    }
  }

  /** The emitted text is a regular expression that matches exactly the strings LIKE accepts. */
  lemma TranslationPreservesMeaning(pattern: string, s: string)
    ensures var r := ReadRegex("(?s)^" + Translated(pattern) + "$");
            r.Some? && (IsMatch(r.value, s) <==> Like(pattern, s))
  {
    var text := "(?s)^" + Translated(pattern) + "$";
    assert text[..4] == "(?s)" && text[4..][0] == '^' && text[4..][1..] == Translated(pattern) + "$";
    TranslationReadsBack(pattern);
    var r := ReadRegex(text).value;
    assert r == Regex(true, true, ItemsOf(pattern), true);
    ItemsMeanLike(pattern, s);
    assert s[0..|s|] == s;
  }
}
