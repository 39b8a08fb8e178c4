/**
 * The shell-style pattern matching `fnmatch.fnmatch(name, pattern)` performs on
 * POSIX (where `os.path.normcase` is the identity, so matching is case-sensitive).
 *
 * Python translates the pattern into an anchored regular expression; the tokenizer
 * below follows that translation one construct at a time: `*` is any run of
 * characters, `?` any single character, `[...]` a character class (`[!...]` its
 * complement, a `]` right after the opening bracket or `!` belongs to the class, and
 * `a-z` a range), an unclosed `[` a literal bracket, and every other character
 * stands for itself.
 */
module Glob {

  datatype ClassItem = Single(c: char) | Range(lo: char, hi: char)

  datatype Token =
    | Star                                          // `*`
    | AnyChar                                       // `?`
    | Class(negated: bool, items: seq<ClassItem>)   // `[...]`, `[!...]`
    | Literal(c: char)

  /** First index at or after `k` holding `]`, or `|p|` when there is none. */
  function FindClose(p: string, k: nat): (r: nat)
    requires k <= |p|
    ensures k <= r <= |p|
    ensures r < |p| ==> p[r] == ']'
    ensures forall i :: k <= i < r ==> p[i] != ']'
    decreases |p| - k
  {
    if k == |p| then k
    else if p[k] == ']' then k
    else FindClose(p, k + 1)
  }

  /** For a pattern starting with `[`: where the search for the closing bracket
      starts, past an optional `!` and then an optional `]`, both of which belong to
      the class. */
  function ClassBodyStart(p: string): (k: nat)
    requires |p| > 0
    ensures 1 <= k <= |p|
    ensures p[1..k] in {"", "!", "]", "!]"}
    ensures k == 1 <==> (|p| == 1 || (p[1] != '!' && p[1] != ']'))
    ensures "]" <= p[1..] ==> k == 2
    ensures "!]" <= p[1..] ==> k == 3
    ensures "!" <= p[1..] && !("!]" <= p[1..]) ==> k == 2
  {
    if 1 < |p| && p[1] == '!' then
      if 2 < |p| && p[2] == ']' then assert p[1..3] == "!]"; 3
      else assert p[1..2] == "!"; 2
    else if 1 < |p| && p[1] == ']' then assert p[1..2] == "]"; 2
    else assert p[1..1] == ""; 1
  }

  /** For a pattern starting with `[`: index of the bracket that closes the class, or
      `|p|` when the class is unclosed. */
  function ClassEnd(p: string): (r: nat)
    requires |p| > 0
    ensures ClassBodyStart(p) <= r <= |p|
    ensures r < |p| ==> p[r] == ']'
    ensures forall i :: ClassBodyStart(p) <= i < r ==> p[i] != ']'
  {
    FindClose(p, ClassBodyStart(p))
  }

  /** The members of a class body, read left to right: `a-b` is a range whenever a
      character follows the hyphen; other characters, a leading or trailing `-`
      included, stand for themselves. */
  function ClassItems(s: string): seq<ClassItem>
    decreases |s|
  {
    if s == [] then []
    else if |s| >= 3 && s[1] == '-' then [Range(s[0], s[2])] + ClassItems(s[3..])
    else [Single(s[0])] + ClassItems(s[1..])
  }

  /** The class written between the brackets. */
  function ParseClass(body: string): Token {
    if |body| > 0 && body[0] == '!' then Class(true, ClassItems(body[1..]))
    else Class(false, ClassItems(body))
  }

  /** The pattern as a sequence of tokens, following `fnmatch.translate`. */
  function Tokenize(p: string): seq<Token>
    decreases |p|
  {
    if p == [] then []
    else if p[0] == '*' then [Star] + Tokenize(p[1..])
    else if p[0] == '?' then [AnyChar] + Tokenize(p[1..])
    else if p[0] == '[' then
      var j := ClassEnd(p);
      if j == |p| then [Literal('[')] + Tokenize(p[1..])
      else [ParseClass(p[1..j])] + Tokenize(p[j + 1..])
    else [Literal(p[0])] + Tokenize(p[1..])
  }

  predicate InItems(items: seq<ClassItem>, c: char) {
    exists i :: 0 <= i < |items| && InItem(items[i], c)
  }

  predicate InItem(item: ClassItem, c: char) {
    match item
    case Single(d) => c == d
    case Range(lo, hi) => lo <= c <= hi
  }

  /** The characters a single star-free token accepts. */
  predicate Accepts(t: Token, c: char) {
    match t
    case Star => true
    case AnyChar => true
    case Class(neg, items) => InItems(items, c) != neg
    case Literal(d) => c == d
  }

  /** Does the token sequence match all of `s`? (The regular expression is anchored at
      both ends, and `*` backtracks over every split.) */
  predicate Matches(toks: seq<Token>, s: string)
    decreases |toks| + |s|
  {
    if toks == [] then s == []
    else match toks[0]
      case Star => Matches(toks[1..], s) || (s != [] && Matches(toks, s[1..]))
      case AnyChar => s != [] && Matches(toks[1..], s[1..])
      case Class(neg, items) => s != [] && InItems(items, s[0]) != neg && Matches(toks[1..], s[1..])
      case Literal(c) => s != [] && s[0] == c && Matches(toks[1..], s[1..])
  }

  /** `fnmatch.fnmatch(name, pattern)` on POSIX. */
  predicate FnMatch(name: string, pattern: string) {
    Matches(Tokenize(pattern), name)
  }

  /* ---------- laws of the matcher ---------- */

  predicate StarFree(toks: seq<Token>) {
    forall i :: 0 <= i < |toks| ==> !toks[i].Star?
  }

  /** Without a `*`, every token consumes exactly one character. */
  lemma {:induction false} StarFreeLength(toks: seq<Token>, s: string)
    requires StarFree(toks) && Matches(toks, s)
    ensures |s| == |toks|
  {
    if toks != [] {
      assert !toks[0].Star?;
      assert StarFree(toks[1..]) by {
        forall i | 0 <= i < |toks[1..]| ensures !toks[1..][i].Star? {
          assert toks[1..][i] == toks[i + 1];
        }
      }
      StarFreeLength(toks[1..], s[1..]);
    }
  }

  /** Without a `*`, a pattern matches exactly the names of its length whose every
      character is accepted by the token at the same position: `?` takes any character,
      `[...]` a member, `[!...]` a non-member, a literal only itself. */
  lemma {:induction false} StarFreeMeaning(toks: seq<Token>, s: string)
    requires StarFree(toks)
    ensures Matches(toks, s) <==> |s| == |toks| && forall i :: 0 <= i < |s| ==> Accepts(toks[i], s[i])
  {
    if toks != [] && s != [] {
      assert !toks[0].Star?;
      assert StarFree(toks[1..]) by {
        forall i | 0 <= i < |toks[1..]| ensures !toks[1..][i].Star? {
          assert toks[1..][i] == toks[i + 1];
        }
      }
      StarFreeMeaning(toks[1..], s[1..]);
      assert Matches(toks, s) <==> Accepts(toks[0], s[0]) && Matches(toks[1..], s[1..]);
      if |s| == |toks| && forall i :: 0 <= i < |s| ==> Accepts(toks[i], s[i]) {
        forall i | 0 <= i < |s[1..]| ensures Accepts(toks[1..][i], s[1..][i]) {
          assert toks[1..][i] == toks[i + 1] && s[1..][i] == s[i + 1];
        }
      }
      if Matches(toks, s) {
        forall i | 0 <= i < |s| ensures Accepts(toks[i], s[i]) {
          if i > 0 { assert toks[1..][i - 1] == toks[i] && s[1..][i - 1] == s[i]; }
        }
      }
    } else if toks != [] {
      assert !toks[0].Star?;
    }
  }

  /** A leading `*` matches exactly when the rest matches some suffix. */
  lemma {:induction false} LeadingStar(rest: seq<Token>, s: string)
    ensures Matches([Star] + rest, s) <==> exists k :: 0 <= k <= |s| && Matches(rest, s[k..])
  {
    var toks := [Star] + rest;
    assert toks[1..] == rest;
    if s != [] {
      LeadingStar(rest, s[1..]);
      assert Matches(toks, s) == (Matches(rest, s) || Matches(toks, s[1..]));
      if Matches(rest, s) {
        assert s[0..] == s;
      }
      if Matches(toks, s[1..]) {
        var k :| 0 <= k <= |s[1..]| && Matches(rest, s[1..][k..]);
        assert s[1..][k..] == s[k + 1..];
      }
      if k :| 0 <= k <= |s| && Matches(rest, s[k..]) {
        if k > 0 {
          assert s[1..][k - 1..] == s[k..];
        } else {
          assert s[0..] == s;
        }
      }
    } else {
      if k :| 0 <= k <= |s| && Matches(rest, s[k..]) {
        assert s[k..] == s;
      }
    }
  }

  /** `*` followed by star-free tokens: the tail of `s` of the right length must match. */
  lemma StarThenFixed(rest: seq<Token>, s: string)
    requires StarFree(rest)
    ensures Matches([Star] + rest, s) <==> |rest| <= |s| && Matches(rest, s[|s| - |rest|..])
  {
    LeadingStar(rest, s);
    if Matches([Star] + rest, s) {
      var k :| 0 <= k <= |s| && Matches(rest, s[k..]);
      StarFreeLength(rest, s[k..]);
    }
  }

  /** A pattern free of `*`, `?` and `[` is a literal. */
  predicate Plain(p: string) {
    '*' !in p && '?' !in p && '[' !in p
  }

  lemma {:induction false} PlainMatchesItself(p: string, s: string)
    requires Plain(p)
    ensures StarFree(Tokenize(p))
    ensures FnMatch(s, p) <==> s == p
  {
    if p != [] {
      var t := Tokenize(p);
      assert t == [Literal(p[0])] + Tokenize(p[1..]);
      assert t[1..] == Tokenize(p[1..]);
      if s != [] {
        PlainMatchesItself(p[1..], s[1..]);
        if s[0] == p[0] && s[1..] == p[1..] {
          assert s == [s[0]] + s[1..] && p == [p[0]] + p[1..];
        }
      } else {
        PlainMatchesItself(p[1..], s);
      }
      assert StarFree(t) by {
        forall i | 0 <= i < |t| ensures !t[i].Star? {
          if i > 0 { assert t[i] == t[1..][i - 1]; }
        }
      }
    }
  }

  /** `*` + a literal suffix: the name matches exactly when it ends with that suffix. */
  lemma StarThenPlain(suffix: string, name: string)
    requires Plain(suffix)
    ensures FnMatch(name, "*" + suffix) <==> |suffix| <= |name| && name[|name| - |suffix|..] == suffix
  {
    var p := "*" + suffix;
    assert p[0] == '*' && p[1..] == suffix;
    assert Tokenize(p) == [Star] + Tokenize(suffix);
    PlainMatchesItself(suffix, "");
    var rest := Tokenize(suffix);
    PlainMatchesItself(suffix, suffix);
    StarFreeLength(rest, suffix);
    StarThenFixed(rest, name);
    if |suffix| <= |name| {
      PlainMatchesItself(suffix, name[|name| - |suffix|..]);
    }
  }

  /** A pattern `*` + star-free tail matches exactly the names whose tail of the
      right length matches the tail pattern. */
  lemma LeadingStarPattern(p: string, name: string)
    requires |p| > 0 && p[0] == '*' && StarFree(Tokenize(p[1..]))
    ensures var rest := Tokenize(p[1..]);
            FnMatch(name, p) <==> |rest| <= |name| && Matches(rest, name[|name| - |rest|..])
  {
    assert Tokenize(p) == [Star] + Tokenize(p[1..]);
    StarThenFixed(Tokenize(p[1..]), name);
  }

  /* ---------- tokenizing and matching the shapes the scheme table uses ---------- */

  /** One Literal token per character. */
  function Literals(s: string): seq<Token> {
    seq(|s|, i requires 0 <= i < |s| => Literal(s[i]))
  }

  /** One Single class item per character. */
  function Singles(s: string): seq<ClassItem> {
    seq(|s|, i requires 0 <= i < |s| => Single(s[i]))
  }

  lemma {:induction false} TokenizePlainPrefix(lit: string, rest: string)
    requires Plain(lit)
    ensures Tokenize(lit + rest) == Literals(lit) + Tokenize(rest)
  {
    if lit == [] {
      assert lit + rest == rest;
    } else {
      var p := lit + rest;
      assert p[0] == lit[0] && p[1..] == lit[1..] + rest;
      TokenizePlainPrefix(lit[1..], rest);
      assert Literals(lit) == [Literal(lit[0])] + Literals(lit[1..]);
    }
  }

  /** A class body with no `!` in front and no `]` or `-` inside: a plain set of characters. */
  predicate SimpleClassBody(body: string) {
    |body| > 0 && body[0] != '!' && ']' !in body && '-' !in body
  }

  lemma {:induction false} ClassItemsWithoutHyphen(body: string)
    requires '-' !in body
    ensures ClassItems(body) == Singles(body)
  {
    if body != [] {
      if |body| >= 2 { assert body[1] in body; }
      assert '-' !in body[1..] by { assert forall c :: c in body[1..] ==> c in body; }
      ClassItemsWithoutHyphen(body[1..]);
      assert Singles(body) == [Single(body[0])] + Singles(body[1..]);
    }
  }

  lemma InSingles(body: string, c: char)
    ensures InItems(Singles(body), c) <==> c in body
  {
    if c in body {
      var i :| 0 <= i < |body| && body[i] == c;
      assert InItem(Singles(body)[i], c);
    }
  }

  lemma TokenizeSimpleClass(body: string, rest: string)
    requires SimpleClassBody(body)
    ensures Tokenize("[" + body + "]" + rest) == [Class(false, Singles(body))] + Tokenize(rest)
  {
    var p := "[" + body + "]" + rest;
    var j := |body| + 1;
    assert p[1] == body[0] && p[j] == ']';
    assert forall i :: 1 <= i < j ==> p[i] == body[i - 1];
    assert ClassEnd(p) == j;
    assert p[1..j] == body && p[j + 1..] == rest;
    ClassItemsWithoutHyphen(body);
  }

  /** A `]` right after `[` belongs to the class: `[]body]` is one class holding `]`
      and the body's characters. */
  lemma TokenizeBracketFirstClass(body: string, rest: string)
    requires ']' !in body && '-' !in body
    ensures Tokenize("[]" + body + "]" + rest) == [Class(false, Singles("]" + body))] + Tokenize(rest)
  {
    var p := "[]" + body + "]" + rest;
    var j := |body| + 2;
    assert p[1] == ']' && p[j] == ']';
    assert forall i :: 2 <= i < j ==> p[i] == body[i - 2];
    assert ClassBodyStart(p) == 2;
    assert ClassEnd(p) == j;
    assert p[1..j] == "]" + body && p[j + 1..] == rest;
    assert '-' !in "]" + body;
    ClassItemsWithoutHyphen("]" + body);
  }

  /** The same after `!`: `[!]body]` is one negated class of `]` and the body. */
  lemma TokenizeNegatedBracketFirstClass(body: string, rest: string)
    requires ']' !in body && '-' !in body
    ensures Tokenize("[!]" + body + "]" + rest) == [Class(true, Singles("]" + body))] + Tokenize(rest)
  {
    var p := "[!]" + body + "]" + rest;
    var j := |body| + 3;
    assert p[1] == '!' && p[2] == ']' && p[j] == ']';
    assert forall i :: 3 <= i < j ==> p[i] == body[i - 3];
    assert ClassBodyStart(p) == 3;
    assert ClassEnd(p) == j;
    assert p[1..j] == "!]" + body && p[j + 1..] == rest;
    assert ("!]" + body)[1..] == "]" + body;
    assert '-' !in "]" + body;
    ClassItemsWithoutHyphen("]" + body);
  }

  /** `[!body]` with a plain body becomes one negated class of the body's characters. */
  lemma TokenizeNegatedClass(body: string, rest: string)
    requires SimpleClassBody(body)
    ensures Tokenize("[!" + body + "]" + rest) == [Class(true, Singles(body))] + Tokenize(rest)
  {
    var p := "[!" + body + "]" + rest;
    var j := |body| + 2;
    assert p[1] == '!' && p[2] == body[0] && p[j] == ']';
    assert forall i :: 2 <= i < j ==> p[i] == body[i - 2];
    assert ClassEnd(p) == j;
    assert p[1..j] == "!" + body && p[j + 1..] == rest;
    assert ("!" + body)[1..] == body;
    ClassItemsWithoutHyphen(body);
  }

  /** `[lo-hi]` becomes one class holding the range from `lo` to `hi`. */
  lemma TokenizeRangeClass(lo: char, hi: char, rest: string)
    requires lo != '!' && lo != ']' && hi != ']'
    ensures Tokenize("[" + [lo, '-', hi] + "]" + rest) == [Class(false, [Range(lo, hi)])] + Tokenize(rest)
  {
    var p := "[" + [lo, '-', hi] + "]" + rest;
    assert p[1] == lo && p[2] == '-' && p[3] == hi && p[4] == ']';
    assert ClassEnd(p) == 4;
    var body := p[1..4];
    assert body == [lo, '-', hi] && p[5..] == rest;
    assert body[3..] == [];
    assert ClassItems(body) == [Range(lo, hi)];
    assert ParseClass(body) == Class(false, [Range(lo, hi)]);
    assert Tokenize(p) == [ParseClass(body)] + Tokenize(p[5..]);
  }

  /** A `[` that no `]` closes is a literal bracket, and scanning resumes right after it. */
  lemma TokenizeUnclosedBracket(rest: string)
    requires ']' !in rest
    ensures Tokenize("[" + rest) == [Literal('[')] + Tokenize(rest)
  {
    var p := "[" + rest;
    assert forall i :: 1 <= i < |p| ==> p[i] == rest[i - 1];
    assert ClassEnd(p) == |p|;
    assert p[1..] == rest;
  }

  /** What these constructs then match, one character at a time. */
  lemma ClassMeanings(body: string, lo: char, hi: char, c: char)
    ensures Accepts(AnyChar, c)
    ensures Accepts(Class(false, Singles(body)), c) <==> c in body
    ensures Accepts(Class(true, Singles(body)), c) <==> c !in body
    ensures Accepts(Class(false, [Range(lo, hi)]), c) <==> lo <= c <= hi
    ensures Accepts(Literal('['), c) <==> c == '['
  {
    InSingles(body, c);
    if lo <= c <= hi {
      assert InItem([Range(lo, hi)][0], c);
    }
  }

  /** `?` matches exactly the one-character names. */
  lemma QuestionMarkPattern(name: string)
    ensures FnMatch(name, "?") <==> |name| == 1
  {
    assert Tokenize("?") == [AnyChar] + Tokenize("?"[1..]);
    assert Tokenize("?") == [AnyChar];
    StarFreeMeaning([AnyChar], name);
  }

  /** `[!body]` matches exactly the one-character names whose character is not in
      the body. */
  lemma NegatedClassPattern(body: string, name: string)
    requires SimpleClassBody(body)
    ensures FnMatch(name, "[!" + body + "]") <==> |name| == 1 && name[0] !in body
  {
    TokenizeNegatedClass(body, "");
    assert "[!" + body + "]" + "" == "[!" + body + "]";
    var toks := [Class(true, Singles(body))];
    assert Tokenize("[!" + body + "]") == toks;
    StarFreeMeaning(toks, name);
    if |name| == 1 {
      ClassMeanings(body, 'a', 'a', name[0]);
    }
  }

  lemma {:induction false} MatchesLiterals(lit: string, toks: seq<Token>, s: string)
    ensures Matches(Literals(lit) + toks, s) <==>
              |lit| <= |s| && s[..|lit|] == lit && Matches(toks, s[|lit|..])
  {
    if lit == [] {
      assert Literals(lit) + toks == toks && s[0..] == s;
    } else {
      var all := Literals(lit) + toks;
      assert all[0] == Literal(lit[0]) && all[1..] == Literals(lit[1..]) + toks;
      if s != [] {
        MatchesLiterals(lit[1..], toks, s[1..]);
        if |lit| <= |s| {
          assert s[1..][..|lit| - 1] == s[..|lit|][1..];
          assert s[1..][|lit| - 1..] == s[|lit|..];
          if s[0] == lit[0] && s[1..][..|lit| - 1] == lit[1..] {
            assert s[..|lit|] == [s[0]] + s[1..][..|lit| - 1];
          }
        }
      }
    }
  }

  /** The pattern shape `*` + literal + `[...]`, as in "*.qmc[023468]": it matches the
      names ending in the literal followed by one character of the class. */
  lemma StarPlainClass(lit: string, body: string, name: string)
    requires Plain(lit) && SimpleClassBody(body)
    ensures FnMatch(name, "*" + lit + "[" + body + "]") <==>
              |lit| + 1 <= |name| && name[|name| - |lit| - 1..|name| - 1] == lit && name[|name| - 1] in body
  {
    var p := "*" + lit + "[" + body + "]";
    var cls := "[" + body + "]";
    assert p[0] == '*' && p[1..] == lit + (cls + "");
    TokenizeSimpleClass(body, "");
    TokenizePlainPrefix(lit, cls + "");
    var rest := Literals(lit) + [Class(false, Singles(body))];
    assert Tokenize(p[1..]) == rest;
    assert StarFree(rest) by {
      forall i | 0 <= i < |rest| ensures !rest[i].Star? {
        if i < |lit| { assert rest[i] == Literal(lit[i]); }
      }
    }
    LeadingStarPattern(p, name);
    if |rest| <= |name| {
      var tail := name[|name| - |rest|..];
      MatchesLiterals(lit, [Class(false, Singles(body))], tail);
      InSingles(body, name[|name| - 1]);
      assert tail[..|lit|] == name[|name| - |lit| - 1..|name| - 1];
      assert tail[|lit|..] == [name[|name| - 1]];
    }
  }

  /* ---------- the pattern shapes of the scheme table ---------- */

  /** `name` ends with `suffix`. */
  predicate EndsWith(name: string, suffix: string) {
    |suffix| <= |name| && name[|name| - |suffix|..] == suffix
  }

  /** Every pattern of the scheme table is `*` followed by an extension, possibly with a
      one-character class at its end. */
  datatype Shape = Ext(ext: string) | ExtClass(stem: string, chars: string)

  /** The pattern text of a shape. */
  function Spell(shape: Shape): string {
    match shape
    case Ext(e) => "*" + e
    case ExtClass(stem, chars) => "*" + stem + "[" + chars + "]"
  }

  ghost predicate WellShaped(shape: Shape) {
    match shape
    case Ext(e) => Plain(e)
    case ExtClass(stem, chars) => Plain(stem) && SimpleClassBody(chars)
  }

  /** The names a shape stands for, stated on the name's ending. */
  predicate EndsLike(name: string, shape: Shape) {
    match shape
    case Ext(e) => EndsWith(name, e)
    case ExtClass(stem, chars) =>
      |stem| + 1 <= |name| && name[|name| - |stem| - 1..|name| - 1] == stem && name[|name| - 1] in chars
  }

  /** Matching a shape's pattern is the same as ending like the shape. */
  lemma ShapeMeaning(shape: Shape, name: string)
    requires WellShaped(shape)
    ensures FnMatch(name, Spell(shape)) <==> EndsLike(name, shape)
  {
    match shape
    case Ext(e) => StarThenPlain(e, name);
    case ExtClass(stem, chars) => StarPlainClass(stem, chars, name);
  }
}
