/**
 Strict WAMP URI validation (`StrictUriValidator`). Each of the three anchored
 patterns reads a URI as dot-separated components whose characters come from
 `[0-9a-z_]`; they differ only in where an empty component is allowed.

 The patterns are modelled twice: once as the regular expressions are written
 (`StarThenTail`: zero or more "component then dot" items followed by a last
 component), and once as conditions on the components obtained by splitting the
 string at every '.' (`Accepts`). The lemmas prove the two readings agree and
 relate the three grammars to one another. `DotNetIsMatch` adds what .NET's `$`
 anchor does on top of the pattern.
 */
module StrictUri {

  /** The three grammars a `WampUriValidator` offers. */
  datatype Grammar = AllowEmpty | DisallowEmpty | AllowLastEmpty

  /** `[0-9a-z_]`: the characters a URI component may contain. */
  predicate IsUriChar(c: char) {
    ('0' <= c <= '9') || ('a' <= c <= 'z') || c == '_'
  }

  /** `[0-9a-z_]*`: a possibly empty run of component characters. */
  predicate IsWord(w: string) {
    forall i :: 0 <= i < |w| ==> IsUriChar(w[i])
  }

  // ---------------------------------------------------------------------------
  // The patterns, as regular expressions
  // ---------------------------------------------------------------------------

  /**
   The shape the three patterns share: `^(item)*(tail)$`, where one `item` is a
   component followed by '.', and `tail` is the last component. `emptyItem` says
   whether an item's component may be empty, `emptyTail` whether the tail may be.
   The existential ranges over every dot of `s` as a place where one item could
   end, exactly as the regular expression's star does.
   */
  predicate StarThenTail(s: string, emptyItem: bool, emptyTail: bool): (b: bool)
    ensures |s| == 0 ==> (b <==> emptyTail)
    ensures '.' !in s ==> (b <==> IsWord(s) && (emptyTail || |s| > 0))
    decreases |s|
  {
    || (IsWord(s) && (emptyTail || |s| > 0))
    || (exists i :: 0 <= i < |s| && s[i] == '.' && (emptyItem || i > 0) && IsWord(s[..i])
                   && StarThenTail(s[i + 1..], emptyItem, emptyTail))
  }

  /**
   A match cannot start with a dot when items must be non-empty, and cannot be
   empty or end with a dot when the tail must be non-empty.
   */
  lemma {:induction false} StarThenTailEnds(s: string, emptyItem: bool, emptyTail: bool)
    requires StarThenTail(s, emptyItem, emptyTail)
    ensures !emptyItem && |s| > 0 ==> s[0] != '.'
    ensures !emptyTail ==> |s| > 0 && s[|s| - 1] != '.'
    decreases |s|
  {
    if !IsWord(s) || (!emptyTail && |s| == 0) {
      var i :| 0 <= i < |s| && s[i] == '.' && (emptyItem || i > 0) && IsWord(s[..i])
               && StarThenTail(s[i + 1..], emptyItem, emptyTail);
      StarThenTailEnds(s[i + 1..], emptyItem, emptyTail);
      if !emptyTail {
        assert s[|s| - 1] == s[i + 1..][|s[i + 1..]| - 1];
      }
      if !emptyItem && i > 0 {
        assert s[0] == s[..i][0];
      }
    } else if |s| > 0 {
      assert IsUriChar(s[0]) && IsUriChar(s[|s| - 1]);
    }
  }

  /** Whether an item `([0-9a-z_]+\.)`, or for AllowEmpty `(([0-9a-z_]+\.)|\.)`, may have an empty component. */
  function EmptyItem(g: Grammar): bool {
    g == AllowEmpty
  }

  /** Whether the tail, `([0-9a-z_]+)`, `([0-9a-z_]+)?` or `([0-9a-z_]*)`, may be empty. */
  function EmptyTail(g: Grammar): bool {
    g != DisallowEmpty
  }

  /**
   The anchored pattern of grammar `g` matches all of `s`:
     AllowEmpty      `^(([0-9a-z_]+\.)|\.)*([0-9a-z_]+)?$`
     DisallowEmpty   `^([0-9a-z_]+\.)*([0-9a-z_]+)$`
     AllowLastEmpty  `^([0-9a-z_]+\.)*([0-9a-z_]*)$`
   */
  predicate Pattern(g: Grammar, s: string): (b: bool)
    ensures |s| == 0 ==> (b <==> g != DisallowEmpty)
    ensures b && g != AllowEmpty && |s| > 0 ==> s[0] != '.'
    ensures b && g == DisallowEmpty ==> |s| > 0 && s[|s| - 1] != '.'
  {
    if StarThenTail(s, EmptyItem(g), EmptyTail(g)) then
      StarThenTailEnds(s, EmptyItem(g), EmptyTail(g));
      true
    else
      false
  }

  /**
   `Regex.IsMatch` as .NET evaluates these patterns: without the Multiline option
   `$` matches at the end of the input and also just before a final '\n'.
   */
  predicate DotNetIsMatch(g: Grammar, s: string): (b: bool)
    ensures Pattern(g, s) ==> b
    ensures b && (|s| == 0 || s[|s| - 1] != '\n') ==> Pattern(g, s)
    ensures b && !Pattern(g, s) ==> s == s[..|s| - 1] + "\n" && Pattern(g, s[..|s| - 1])
  {
    || Pattern(g, s)
    || (|s| > 0 && s[|s| - 1] == '\n' && Pattern(g, s[..|s| - 1]))
  }

  // ---------------------------------------------------------------------------
  // The component reading
  // ---------------------------------------------------------------------------

  /** The position of the first '.' of `s`. */
  function FirstDot(s: string): (i: nat)
    requires '.' in s
    ensures i < |s| && s[i] == '.'
    ensures '.' !in s[..i]
  {
    if s[0] == '.' then 0
    else
      assert s == [s[0]] + s[1..];
      var j := FirstDot(s[1..]);
      assert s[..j + 1] == [s[0]] + s[1..][..j];
      j + 1
  }

  /** Joins components with '.' between them. */
  function Join(parts: seq<string>): string
    requires |parts| >= 1
    decreases |parts|
  {
    if |parts| == 1 then parts[0] else parts[0] + "." + Join(parts[1..])
  }

  /** The component reading of `s`: the pieces between its dots, empty ones included. */
  function Split(s: string): (parts: seq<string>)
    ensures |parts| >= 1
    ensures forall k :: 0 <= k < |parts| ==> '.' !in parts[k]
    ensures Join(parts) == s
    decreases |s|
  {
    if '.' !in s then [s]
    else
      var i := FirstDot(s);
      var rest := Split(s[i + 1..]);
      assert ([s[..i]] + rest)[1..] == rest;
      assert s == s[..i] + "." + s[i + 1..];
      [s[..i]] + rest
  }

  /**
   Every component is drawn from `[0-9a-z_]`; an empty one is allowed before the
   last only when `emptyItem` holds, and as the last only when `emptyTail` holds.
   */
  predicate ComponentsOk(parts: seq<string>, emptyItem: bool, emptyTail: bool) {
    forall k :: 0 <= k < |parts| ==>
      && IsWord(parts[k])
      && (k < |parts| - 1 ==> emptyItem || |parts[k]| > 0)
      && (k == |parts| - 1 ==> emptyTail || |parts[k]| > 0)
  }

  /** The grammar `g` read on the components of `s`. */
  predicate Accepts(g: Grammar, s: string) {
    ComponentsOk(Split(s), EmptyItem(g), EmptyTail(g))
  }

  // ---------------------------------------------------------------------------
  // Lemmas
  // ---------------------------------------------------------------------------

  /** Splitting undoes joining dot-free components. */
  lemma {:induction false} SplitJoin(parts: seq<string>)
    requires |parts| >= 1
    requires forall k :: 0 <= k < |parts| ==> '.' !in parts[k]
    ensures Split(Join(parts)) == parts
    decreases |parts|
  {
    if |parts| > 1 {
      var p0 := parts[0];
      var rest := parts[1..];
      assert forall k :: 0 <= k < |rest| ==> '.' !in rest[k] by {
        forall k | 0 <= k < |rest| ensures '.' !in rest[k] {
          assert rest[k] == parts[k + 1];
        }
      }
      var s := Join(parts);
      assert s == p0 + "." + Join(rest);
      assert s[|p0|] == '.';
      var i := FirstDot(s);
      assert s[..i] == p0;
      assert s[i + 1..] == Join(rest);
      SplitJoin(rest);
      assert parts == [p0] + rest;
    }
  }

  /** `ComponentsOk` on a component followed by at least one more. */
  lemma ComponentsOkCons(a: string, rest: seq<string>, emptyItem: bool, emptyTail: bool)
    requires |rest| >= 1
    ensures ComponentsOk([a] + rest, emptyItem, emptyTail)
        <==> IsWord(a) && (emptyItem || |a| > 0) && ComponentsOk(rest, emptyItem, emptyTail)
  {
    var parts := [a] + rest;
    assert forall k :: 0 <= k < |rest| ==> rest[k] == parts[k + 1];
    if ComponentsOk(parts, emptyItem, emptyTail) {
      assert parts[0] == a;
      forall k | 0 <= k < |rest|
        ensures && IsWord(rest[k])
                && (k < |rest| - 1 ==> emptyItem || |rest[k]| > 0)
                && (k == |rest| - 1 ==> emptyTail || |rest[k]| > 0)
      {
        assert rest[k] == parts[k + 1];
      }
    }
    if IsWord(a) && (emptyItem || |a| > 0) && ComponentsOk(rest, emptyItem, emptyTail) {
      forall k | 0 <= k < |parts|
        ensures && IsWord(parts[k])
                && (k < |parts| - 1 ==> emptyItem || |parts[k]| > 0)
                && (k == |parts| - 1 ==> emptyTail || |parts[k]| > 0)
      {
        if k > 0 {
          assert parts[k] == rest[k - 1];
        }
      }
    }
  }

  /** A word followed by a dot ends at the first dot of the string. */
  lemma OnlyFirstDotEndsWord(s: string, i: nat)
    requires i < |s| && s[i] == '.' && IsWord(s[..i])
    ensures '.' in s && i == FirstDot(s)
  {
    assert s[i] in s;
  }

  /**
   On a string with a dot, the star must take its first item up to the first dot:
   the pattern matches exactly when that item is allowed and the pattern matches
   the rest.
   */
  lemma StarThenTailAtFirstDot(s: string, emptyItem: bool, emptyTail: bool)
    requires '.' in s
    ensures var i0 := FirstDot(s);
            StarThenTail(s, emptyItem, emptyTail)
            <==> (emptyItem || i0 > 0) && IsWord(s[..i0]) && StarThenTail(s[i0 + 1..], emptyItem, emptyTail)
  {
    var i0 := FirstDot(s);
    assert !IsWord(s) by {
      assert !IsUriChar(s[i0]);
    }
    if StarThenTail(s, emptyItem, emptyTail) {
      var i :| 0 <= i < |s| && s[i] == '.' && (emptyItem || i > 0) && IsWord(s[..i])
               && StarThenTail(s[i + 1..], emptyItem, emptyTail);
      OnlyFirstDotEndsWord(s, i);
    }
  }

  /** The regular-expression reading and the component reading agree on every string. */
  lemma {:induction false} StarThenTailIsComponents(s: string, emptyItem: bool, emptyTail: bool)
    ensures StarThenTail(s, emptyItem, emptyTail) <==> ComponentsOk(Split(s), emptyItem, emptyTail)
    decreases |s|
  {
    if '.' !in s {
      assert Split(s) == [s];
    } else {
      var i0 := FirstDot(s);
      var rest := s[i0 + 1..];
      StarThenTailIsComponents(rest, emptyItem, emptyTail);
      StarThenTailAtFirstDot(s, emptyItem, emptyTail);
      assert Split(s) == [s[..i0]] + Split(rest);
      ComponentsOkCons(s[..i0], Split(rest), emptyItem, emptyTail);
      assert |s[..i0]| == i0;
    }
  }

  /** A grammar's pattern matches exactly the strings its component reading accepts. */
  lemma PatternIsAccepts(g: Grammar, s: string)
    ensures Pattern(g, s) <==> Accepts(g, s)
  {
    StarThenTailIsComponents(s, EmptyItem(g), EmptyTail(g));
  }

  /** DisallowEmpty matches `s` exactly when every component is non-empty and drawn from `[0-9a-z_]`. */
  lemma DisallowEmptyMeaning(s: string)
    ensures Pattern(DisallowEmpty, s)
        <==> forall k :: 0 <= k < |Split(s)| ==> |Split(s)[k]| > 0 && IsWord(Split(s)[k])
  {
    var p := Split(s);
    PatternIsAccepts(DisallowEmpty, s);
    assert Pattern(DisallowEmpty, s) == ComponentsOk(p, false, false);
    assert ComponentsOk(p, false, false) ==> forall k :: 0 <= k < |p| ==> |p[k]| > 0 && IsWord(p[k]);
    assert (forall k :: 0 <= k < |p| ==> |p[k]| > 0 && IsWord(p[k])) ==> ComponentsOk(p, false, false);
    assert p == Split(s);
  }

  /** AllowLastEmpty matches `s` exactly when every component is drawn from `[0-9a-z_]` and only the last may be empty. */
  lemma AllowLastEmptyMeaning(s: string)
    ensures Pattern(AllowLastEmpty, s)
        <==> forall k :: 0 <= k < |Split(s)| ==>
               IsWord(Split(s)[k]) && (k < |Split(s)| - 1 ==> |Split(s)[k]| > 0)
  {
    var p := Split(s);
    PatternIsAccepts(AllowLastEmpty, s);
    assert Pattern(AllowLastEmpty, s) == ComponentsOk(p, false, true);
    assert ComponentsOk(p, false, true)
       ==> forall k :: 0 <= k < |p| ==> IsWord(p[k]) && (k < |p| - 1 ==> |p[k]| > 0);
    assert (forall k :: 0 <= k < |p| ==> IsWord(p[k]) && (k < |p| - 1 ==> |p[k]| > 0))
       ==> ComponentsOk(p, false, true);
    assert p == Split(s);
  }

  /** AllowEmpty matches `s` exactly when every component, empty or not, is drawn from `[0-9a-z_]`. */
  lemma AllowEmptyMeaning(s: string)
    ensures Pattern(AllowEmpty, s) <==> forall k :: 0 <= k < |Split(s)| ==> IsWord(Split(s)[k])
  {
    var p := Split(s);
    PatternIsAccepts(AllowEmpty, s);
    assert Pattern(AllowEmpty, s) == ComponentsOk(p, true, true);
    assert ComponentsOk(p, true, true) ==> forall k :: 0 <= k < |p| ==> IsWord(p[k]);
    assert (forall k :: 0 <= k < |p| ==> IsWord(p[k])) ==> ComponentsOk(p, true, true);
    assert p == Split(s);
  }

  /** Every character of `s` is in `[0-9a-z_.]`. */
  predicate OverUriAlphabet(s: string) {
    forall i :: 0 <= i < |s| ==> IsUriChar(s[i]) || s[i] == '.'
  }

  /** The alphabet condition splits at a dot. */
  lemma OverUriAlphabetAtDot(a: string, rest: string)
    ensures OverUriAlphabet(a + "." + rest) <==> OverUriAlphabet(a) && OverUriAlphabet(rest)
  {
    var s := a + "." + rest;
    assert forall i :: 0 <= i < |a| ==> s[i] == a[i];
    assert forall i :: 0 <= i < |rest| ==> s[|a| + 1 + i] == rest[i];
  }

  /** AllowEmpty matches exactly the strings over `[0-9a-z_.]`. */
  lemma {:induction false} AllowEmptyAlphabet(s: string)
    ensures Pattern(AllowEmpty, s) <==> OverUriAlphabet(s)
    decreases |s|
  {
    PatternIsAccepts(AllowEmpty, s);
    if '.' !in s {
      assert Split(s) == [s];
    } else {
      var i0 := FirstDot(s);
      var a, rest := s[..i0], s[i0 + 1..];
      AllowEmptyAlphabet(rest);
      PatternIsAccepts(AllowEmpty, rest);
      assert Split(s) == [a] + Split(rest);
      ComponentsOkCons(a, Split(rest), true, true);
      assert s == a + "." + rest;
      OverUriAlphabetAtDot(a, rest);
      assert IsWord(a) <==> OverUriAlphabet(a);
    }
  }

  /** DisallowEmpty is contained in AllowLastEmpty, which is contained in AllowEmpty. */
  lemma Inclusion(s: string)
    ensures Pattern(DisallowEmpty, s) ==> Pattern(AllowLastEmpty, s)
    ensures Pattern(AllowLastEmpty, s) ==> Pattern(AllowEmpty, s)
  {
    PatternIsAccepts(DisallowEmpty, s);
    PatternIsAccepts(AllowLastEmpty, s);
    PatternIsAccepts(AllowEmpty, s);
  }

  /**
   "a." ends in an empty component: AllowLastEmpty accepts it, DisallowEmpty does
   not, so the first inclusion is strict.
   */
  lemma TrailingDot()
    ensures Pattern(AllowLastEmpty, "a.") && !Pattern(DisallowEmpty, "a.")
  {
    var t := "a.";
    var p: seq<string> := ["a", ""];
    SplitJoin(p);
    assert Join(p) == t;
    assert IsWord(p[0]);
    assert ComponentsOk(p, false, true);
    assert !ComponentsOk(p, false, false) by { assert p[1] == ""; }
    PatternIsAccepts(AllowLastEmpty, t);
    PatternIsAccepts(DisallowEmpty, t);
  }

  /**
   "a..b" has an empty component in the middle: AllowEmpty accepts it,
   AllowLastEmpty does not, so the second inclusion is strict.
   */
  lemma InnerEmptyComponent()
    ensures Pattern(AllowEmpty, "a..b") && !Pattern(AllowLastEmpty, "a..b")
  {
    var u := "a..b";
    var p: seq<string> := ["a", "", "b"];
    SplitJoin(p);
    assert Join(p) == u;
    assert IsWord(p[0]) && IsWord(p[2]);
    assert ComponentsOk(p, true, true);
    assert !ComponentsOk(p, false, true) by { assert p[1] == ""; }
    PatternIsAccepts(AllowEmpty, u);
    PatternIsAccepts(AllowLastEmpty, u);
  }

  /** The empty string: accepted by AllowEmpty and AllowLastEmpty, rejected by DisallowEmpty. */
  lemma EmptyString()
    ensures Pattern(AllowEmpty, "") && Pattern(AllowLastEmpty, "")
    ensures !Pattern(DisallowEmpty, "")
  {
    assert Split("") == [""];
    PatternIsAccepts(AllowEmpty, "");
    PatternIsAccepts(AllowLastEmpty, "");
    PatternIsAccepts(DisallowEmpty, "");
  }

  /** A lone dot is two empty components: only AllowEmpty accepts it. */
  lemma LoneDot()
    ensures Pattern(AllowEmpty, ".")
    ensures !Pattern(DisallowEmpty, ".") && !Pattern(AllowLastEmpty, ".")
  {
    var u := ".";
    var p: seq<string> := ["", ""];
    SplitJoin(p);
    assert Join(p) == u;
    assert ComponentsOk(p, true, true);
    assert !ComponentsOk(p, false, true) by { assert p[0] == ""; }
    PatternIsAccepts(AllowEmpty, u);
    PatternIsAccepts(DisallowEmpty, u);
    PatternIsAccepts(AllowLastEmpty, u);
  }

  /** No grammar's pattern accepts a character outside `[0-9a-z_.]`; in particular no upper-case letter. */
  lemma OnlyUriCharacters(g: Grammar, s: string)
    requires Pattern(g, s)
    ensures OverUriAlphabet(s)
    ensures forall i :: 0 <= i < |s| ==> !('A' <= s[i] <= 'Z')
  {
    Inclusion(s);
    AllowEmptyAlphabet(s);
  }

  /** On input without a line feed, the .NET match is exactly the pattern. */
  lemma DotNetMatchWithoutNewline(g: Grammar, s: string)
    requires '\n' !in s
    ensures DotNetIsMatch(g, s) <==> Pattern(g, s)
  {
    if |s| > 0 {
      assert s[|s| - 1] in s;
    }
  }

  /** .NET also matches any accepted URI followed by one line feed. */
  lemma DotNetMatchTrailingNewline(g: Grammar, s: string)
    requires Pattern(g, s)
    ensures DotNetIsMatch(g, s + "\n")
    ensures !Pattern(g, s + "\n")
  {
    var t := s + "\n";
    assert t[..|t| - 1] == s;
    assert !IsUriChar(t[|s|]) && t[|s|] != '.';
    if Pattern(g, t) {
      OnlyUriCharacters(g, t);
    }
  }

  /** A concrete instance: "a\n" passes the DisallowEmpty check although it is not a URI. */
  lemma DotNetAcceptsNewlineUri()
    ensures DotNetIsMatch(DisallowEmpty, "a\n") && !Pattern(DisallowEmpty, "a\n")
  {
    assert Split("a") == ["a"];
    PatternIsAccepts(DisallowEmpty, "a");
    DotNetMatchTrailingNewline(DisallowEmpty, "a");
    assert "a" + "\n" == "a\n";
  }
}
