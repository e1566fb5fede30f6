/** Go identifiers for C names: normalisation and collision-free allocation
    (src/purego_gen/identifier_utils.py). */
module Identifiers {
  import Decimal
  import opened Text

  /** The 25 keywords of Go, by length. */
  predicate IsGoKeyword(s: string) {
    match |s|
    case 2 => s == "go" || s == "if"
    case 3 => s == "for" || s == "map" || s == "var"
    case 4 => s == "case" || s == "chan" || s == "else" || s == "func" || s == "goto" || s == "type"
    case 5 => s == "break" || s == "const" || s == "defer" || s == "range"
    case 6 => s == "import" || s == "return" || s == "select" || s == "struct" || s == "switch"
    case 7 => s == "default" || s == "package"
    case 8 => s == "continue"
    case 9 => s == "interface"
    case 11 => s == "fallthrough"
    case _ => false
  }

  /** These are all. */
  lemma {:induction false} KeywordsExact(s: string)
    ensures IsGoKeyword(s) <==>
      || s in {"break", "default", "func", "interface", "select", "case", "defer", "go", "map", "struct"}
      || s in {"chan", "else", "goto", "package", "switch", "const", "fallthrough", "if", "range", "type"}
      || s in {"continue", "for", "import", "return", "var"}
  {
  }

  /** Length of the longest prefix without word characters. */
  function NonWordLength(s: string): (n: nat)
    ensures n <= |s|
    ensures n < |s| ==> IsWordChar(s[n])
  {
    if s == "" || IsWordChar(s[0]) then 0 else 1 + NonWordLength(s[1..])
  }

  /** Every maximal run of non-word characters becomes one underscore. */
  function Substitute(raw: string): (r: string)
    ensures forall i :: 0 <= i < |r| ==> IsWordChar(r[i])
  {
    if raw == "" then ""
    else if IsWordChar(raw[0]) then [raw[0]] + Substitute(raw[1..])
    else "_" + Substitute(raw[1 + NonWordLength(raw[1..])..])
  }

  /** `strip("_")` */
  function StripUnderscores(s: string): (r: string)
    ensures r != "" ==> r[0] != '_' && r[|r| - 1] != '_'
    ensures (forall i :: 0 <= i < |s| ==> IsWordChar(s[i])) ==> forall i :: 0 <= i < |r| ==> IsWordChar(r[i])
  {
    if s != "" && s[0] == '_' then StripUnderscores(s[1..])
    else if s != "" && s[|s| - 1] == '_' then StripUnderscores(s[..|s| - 1])
    else s
  }

  function Sanitize(raw: string, fallback: string, digitPrefix: string, stripOuter: bool): string
    requires fallback != ""
  {
    var substituted := Substitute(raw);
    var stripped := if stripOuter then StripUnderscores(substituted) else substituted;
    var filled := if stripped == "" then fallback else stripped;
    var prefixed := if Decimal.IsDigit(filled[0]) then digitPrefix + filled else filled;
    if IsGoKeyword(prefixed) then prefixed + "_" else prefixed
  }

  function SanitizeStructField(raw: string, fallback: string): string
    requires fallback != ""
  {
    Sanitize(raw, fallback, "f_", true)
  }

  function SanitizeSymbolSuffix(raw: string, fallback: string): string
    requires fallback != ""
  {
    Sanitize(raw, fallback, "n_", false)
  }

  lemma {:induction false} KeywordEndings(k: string)
    requires IsGoKeyword(k)
    ensures |k| >= 2 && k[|k| - 1] != '_' && !exists i :: 0 <= i < |k| && Decimal.IsDigit(k[i])
  {
  }

  predicate WordChars(s: string) {
    forall i :: 0 <= i < |s| ==> IsWordChar(s[i])
  }

  /** The sanitised text is always a Go identifier and never a keyword. */
  lemma {:induction false} SanitizeValid(raw: string, fallback: string, digitPrefix: string, stripOuter: bool)
    requires fallback != "" && WordChars(fallback)
    requires digitPrefix == "f_" || digitPrefix == "n_"
    ensures IsIdentifier(Sanitize(raw, fallback, digitPrefix, stripOuter))
    ensures !IsGoKeyword(Sanitize(raw, fallback, digitPrefix, stripOuter))
  {
    var substituted := Substitute(raw);
    var stripped := if stripOuter then StripUnderscores(substituted) else substituted;
    var filled := if stripped == "" then fallback else stripped;
    assert WordChars(filled);
    var prefixed := if Decimal.IsDigit(filled[0]) then digitPrefix + filled else filled;
    assert IsIdentifier(prefixed);
    if IsGoKeyword(prefixed) {
      var r := prefixed + "_";
      assert r[|r| - 1] == '_';
      if IsGoKeyword(r) {
        KeywordEndings(r);
      }
    }
  }

  /** A struct field is never called "_", the name kept for padding. */
  lemma {:induction false} StructFieldNotBlank(raw: string, fallback: string)
    requires fallback != "" && fallback != "_"
    ensures SanitizeStructField(raw, fallback) != "_"
  {
    var stripped := StripUnderscores(Substitute(raw));
    var filled := if stripped == "" then fallback else stripped;
    assert filled != "_";
  }

  lemma {:induction false} SubstituteIdentity(s: string)
    requires WordChars(s)
    ensures Substitute(s) == s
  {
    if s != "" {
      SubstituteIdentity(s[1..]);
    }
  }

  lemma {:induction false} SanitizeIdentity(raw: string, fallback: string)
    requires fallback != ""
    requires IsIdentifier(raw) && !IsGoKeyword(raw)
    ensures SanitizeSymbolSuffix(raw, fallback) == raw
  {
    SubstituteIdentity(raw);
  }

  // ---- the name that a text is given ----

  /** Characters that may stand in an identifier stay; the first of each run of others becomes an
      underscore and the rest of the run goes. `inside` says that a run goes on. */
  function Squeezed(raw: string, inside: bool): string {
    if raw == "" then ""
    else if IsWordChar(raw[0]) then [raw[0]] + Squeezed(raw[1..], false)
    else (if inside then "" else "_") + Squeezed(raw[1..], true)
  }

  lemma {:induction false} SkipRun(raw: string)
    ensures Squeezed(raw, true) == Squeezed(raw[NonWordLength(raw)..], false)
  {
    if raw != "" && !IsWordChar(raw[0]) {
      SkipRun(raw[1..]);
      assert raw[1..][NonWordLength(raw[1..])..] == raw[NonWordLength(raw)..];
    } else {
      assert raw[0..] == raw;
    }
  }

  lemma {:induction false} SubstituteExact(raw: string)
    ensures Substitute(raw) == Squeezed(raw, false)
    decreases |raw|
  {
    if raw != "" {
      if IsWordChar(raw[0]) {
        SubstituteExact(raw[1..]);
      } else {
        var n := NonWordLength(raw[1..]);
        SkipRun(raw[1..]);
        assert raw[1 + n..] == raw[1..][n..];
        SubstituteExact(raw[1 + n..]);
      }
    }
  }

  predicate Underscores(s: string) {
    forall i :: 0 <= i < |s| ==> s[i] == '_'
  }

  /** What is stripped off stood in front of `i` and from `j` on. */
  lemma {:induction false} StripUnderscoresExact(s: string) returns (i: nat, j: nat)
    ensures i <= j <= |s| && StripUnderscores(s) == s[i..j]
    ensures forall k :: 0 <= k < |s| && (k < i || j <= k) ==> s[k] == '_'
  {
    if s != "" && s[0] == '_' {
      i, j := StripUnderscoresExact(s[1..]);
      assert s[1..][i..j] == s[i + 1..j + 1];
      assert forall k :: 1 <= k < |s| ==> s[k] == s[1..][k - 1];
      i, j := i + 1, j + 1;
    } else if s != "" && s[|s| - 1] == '_' {
      i, j := StripUnderscoresExact(s[..|s| - 1]);
      assert s[..|s| - 1][i..j] == s[i..j];
      assert forall k :: 0 <= k < |s| - 1 ==> s[k] == s[..|s| - 1][k];
    } else {
      i, j := 0, |s|;
    }
  }

  /** The name for a text: a prefix before a digit, an underscore behind a keyword. */
  predicate IsNameOf(text: string, digitPrefix: string, name: string) {
    text != "" &&
    (if Decimal.IsDigit(text[0]) then name == digitPrefix + text
     else if IsGoKeyword(text) then name == text + "_"
     else name == text)
  }

  /** The characters that may stand in an identifier, with one underscore for each run of others and
      without outer underscores when they are to go; the fallback when nothing is left. */
  ghost predicate IsSanitized(raw: string, fallback: string, digitPrefix: string, stripOuter: bool, name: string) {
    exists a, core, b :: Squeezed(raw, false) == a + core + b && Underscores(a) && Underscores(b)
      && (if stripOuter then core == "" || (core[0] != '_' && core[|core| - 1] != '_') else a == "" && b == "")
      && IsNameOf(if core == "" then fallback else core, digitPrefix, name)
  }

  lemma {:induction false} Stripped(s: string) returns (a: string, b: string)
    ensures s == a + StripUnderscores(s) + b && Underscores(a) && Underscores(b)
  {
    var i, j := StripUnderscoresExact(s);
    a, b := s[..i], s[j..];
    assert s == s[..i] + s[i..j] + s[j..];
  }

  /** What is left of the raw text, between the outer underscores that go. */
  lemma {:induction false} CoreOf(raw: string, stripOuter: bool) returns (a: string, b: string)
    ensures var core := if stripOuter then StripUnderscores(Substitute(raw)) else Substitute(raw);
      && Squeezed(raw, false) == a + core + b && Underscores(a) && Underscores(b)
      && (if stripOuter then core == "" || (core[0] != '_' && core[|core| - 1] != '_') else a == "" && b == "")
  {
    SubstituteExact(raw);
    if stripOuter {
      a, b := Stripped(Substitute(raw));
    } else {
      a, b := "", "";
      assert "" + Substitute(raw) + "" == Substitute(raw);
    }
  }

  lemma {:induction false} NameOfText(text: string, digitPrefix: string)
    requires text != ""
    ensures var prefixed := if Decimal.IsDigit(text[0]) then digitPrefix + text else text;
      IsNameOf(text, digitPrefix, if IsGoKeyword(prefixed) then prefixed + "_" else prefixed)
  {
    assert (digitPrefix + text)[|digitPrefix|] == text[0];
    if Decimal.IsDigit(text[0]) && IsGoKeyword(digitPrefix + text) {
      KeywordEndings(digitPrefix + text);
    }
  }

  lemma {:induction false} SanitizeExact(raw: string, fallback: string, digitPrefix: string, stripOuter: bool)
    requires fallback != ""
    ensures IsSanitized(raw, fallback, digitPrefix, stripOuter, Sanitize(raw, fallback, digitPrefix, stripOuter))
  {
    var core := if stripOuter then StripUnderscores(Substitute(raw)) else Substitute(raw);
    var a, b := CoreOf(raw, stripOuter);
    NameOfText(if core == "" then fallback else core, digitPrefix);
  }

  /** `raw` as a field name: an identifier without outer underscores that is no keyword is kept. */
  lemma {:induction false} FieldIdentity(raw: string, fallback: string)
    requires fallback != ""
    requires IsIdentifier(raw) && !IsGoKeyword(raw) && raw[0] != '_' && raw[|raw| - 1] != '_'
    ensures SanitizeStructField(raw, fallback) == raw
  {
    SubstituteIdentity(raw);
    assert StripUnderscores(raw) == raw;
    assert !Decimal.IsDigit(raw[0]);
  }

  // ---- allocation of unused names ----

  /** The base when it is unused, else the base with the least unused number from 2 on. */
  ghost predicate IsLeastUnused(name: string, base: string, taken: set<string>) {
    && name !in taken
    && (name == base
        || (base in taken
            && exists k: nat :: 2 <= k && name == base + "_" + Decimal.Format(k)
                 && forall j: nat :: 2 <= j < k ==> base + "_" + Decimal.Format(j) in taken))
  }

  function Suffixed(base: string, k: nat): string {
    base + "_" + Decimal.Format(k)
  }

  lemma {:induction false} SuffixedInjective(base: string, j: nat, k: nat)
    ensures Suffixed(base, j) == Suffixed(base, k) <==> j == k
    ensures Suffixed(base, j) != base
  {
    assert Suffixed(base, j)[|base| + 1..] == Decimal.Format(j);
    assert Suffixed(base, k)[|base| + 1..] == Decimal.Format(k);
    Decimal.FormatInjective(j, k);
  }

  ghost predicate IsSuffixFrom(base: string, s: string, k: nat) {
    exists j: nat :: k <= j && s == Suffixed(base, j)
  }

  /** The names in use that a search starting at suffix k can still run into. */
  ghost function Pending(base: string, seen: set<string>, k: nat): set<string> {
    set s | s in seen && IsSuffixFrom(base, s, k)
  }

  lemma {:induction false} PendingShrinks(base: string, seen: set<string>, k: nat)
    requires Suffixed(base, k) in seen
    ensures Pending(base, seen, k + 1) < Pending(base, seen, k)
  {
    assert IsSuffixFrom(base, Suffixed(base, k), k);
    if IsSuffixFrom(base, Suffixed(base, k), k + 1) {
      var j: nat :| k + 1 <= j && Suffixed(base, k) == Suffixed(base, j);
      SuffixedInjective(base, j, k);
    }
    forall s | s in Pending(base, seen, k + 1)
      ensures s in Pending(base, seen, k)
    {
      var j: nat :| k + 1 <= j && s == Suffixed(base, j);
    }
    assert Suffixed(base, k) in Pending(base, seen, k) && Suffixed(base, k) !in Pending(base, seen, k + 1);
  }

  /** The least suffix from k on that gives an unused name. */
  function FirstFree(base: string, seen: set<string>, k: nat): (r: nat)
    ensures k <= r && Suffixed(base, r) !in seen
    ensures forall j: nat :: k <= j < r ==> Suffixed(base, j) in seen
    decreases Pending(base, seen, k)
  {
    if Suffixed(base, k) in seen then
      PendingShrinks(base, seen, k);
      FirstFree(base, seen, k + 1)
    else k
  }

  /** The base name itself when unused, else the base with the least free suffix from 2 on. */
  function Allocate(base: string, seen: set<string>): (name: string)
    ensures name !in seen
  {
    if base in seen then Suffixed(base, FirstFree(base, seen, 2)) else base
  }

  lemma {:induction false} AllocateExact(base: string, seen: set<string>)
    ensures IsLeastUnused(Allocate(base, seen), base, seen)
  {
    if base in seen {
      var k := FirstFree(base, seen, 2);
      assert Allocate(base, seen) == base + "_" + Decimal.Format(k);
      forall j: nat | 2 <= j < k ensures base + "_" + Decimal.Format(j) in seen {
        assert Suffixed(base, j) in seen;
      }
    }
  }

  lemma {:induction false} AllocateIdentifier(base: string, seen: set<string>)
    requires IsIdentifier(base) && !IsGoKeyword(base)
    ensures IsIdentifier(Allocate(base, seen)) && !IsGoKeyword(Allocate(base, seen))
  {
    if base in seen {
      var k := FirstFree(base, seen, 2);
      Decimal.ParseFormat(k);
      var name := Suffixed(base, k);
      assert Decimal.IsDigit(name[|name| - 1]);
      if IsGoKeyword(name) {
        KeywordEndings(name);
      }
    }
  }

  /** The names given out so far in one category. */
  class NameScope {
    var seen: set<string>

    constructor ()
      ensures seen == {}
    {
      seen := {};
    }

    method AllocateUniqueIdentifier(base: string) returns (resolved: string)
      modifies this
      ensures resolved == Allocate(base, old(seen))
      ensures seen == old(seen) + {resolved}
    {
      if base !in seen {
        seen := seen + {base};
        return base;
      }
      var suffix := 2;
      while Suffixed(base, suffix) in seen
        invariant 2 <= suffix && seen == old(seen)
        invariant FirstFree(base, seen, suffix) == FirstFree(base, seen, 2)
        decreases Pending(base, seen, suffix)
      {
        PendingShrinks(base, seen, suffix);
        suffix := suffix + 1;
      }
      resolved := Suffixed(base, suffix);
      seen := seen + {resolved};
    }
  }

  // ---- one declaration category ----

  function NamesOf(names: seq<string>): set<string> {
    set s | s in names
  }

  function BaseName(raws: seq<string>, prefix: string, i: nat): string
    requires i < |raws|
  {
    SanitizeSymbolSuffix(raws[i], prefix + "_" + Decimal.Format(i + 1))
  }

  function UniqueNames(raws: seq<string>, prefix: string): (names: seq<string>)
    ensures |names| == |raws|
  {
    if raws == [] then []
    else
      var n := |raws| - 1;
      var earlier := UniqueNames(raws[..n], prefix);
      earlier + [Allocate(BaseName(raws, prefix, n), NamesOf(earlier))]
  }

  method BuildUniqueIdentifiers(raws: seq<string>, prefix: string) returns (resolved: seq<string>)
    ensures resolved == UniqueNames(raws, prefix)
  {
    var scope := new NameScope();
    resolved := [];
    for i := 0 to |raws|
      invariant resolved == UniqueNames(raws[..i], prefix)
      invariant scope.seen == NamesOf(resolved)
    {
      assert raws[..i + 1][..i] == raws[..i];
      assert BaseName(raws[..i + 1], prefix, i) == BaseName(raws, prefix, i);
      var name := scope.AllocateUniqueIdentifier(BaseName(raws, prefix, i));
      resolved := resolved + [name];
    }
    assert raws[..|raws|] == raws;
  }

  /** Names already given never change when more declarations follow. */
  lemma {:induction false} UniqueNamesPrefix(raws: seq<string>, prefix: string, i: nat)
    requires i <= |raws|
    ensures UniqueNames(raws, prefix)[..i] == UniqueNames(raws[..i], prefix)
  {
    var n := |raws| - 1;
    if i <= n {
      UniqueNamesPrefix(raws[..n], prefix, i);
      assert raws[..n][..i] == raws[..i];
    } else {
      assert raws[..i] == raws;
    }
  }

  /** Each name is the least unused one for its text, against all earlier names. */
  lemma {:induction false} UniqueNamesLeast(raws: seq<string>, prefix: string, i: nat)
    requires i < |raws|
    ensures var names := UniqueNames(raws, prefix);
      exists base :: IsSanitized(raws[i], prefix + "_" + Decimal.Format(i + 1), "n_", false, base)
                  && IsLeastUnused(names[i], base, NamesOf(names[..i]))
  {
    var names, base := UniqueNames(raws, prefix), BaseName(raws, prefix, i);
    UniqueNamesPrefix(raws, prefix, i);
    UniqueNamesPrefix(raws, prefix, i + 1);
    assert raws[..i + 1][..i] == raws[..i];
    assert BaseName(raws[..i + 1], prefix, i) == base;
    assert names[i] == names[..i + 1][i] == Allocate(base, NamesOf(names[..i]));
    SanitizeExact(raws[i], prefix + "_" + Decimal.Format(i + 1), "n_", false);
    AllocateExact(base, NamesOf(names[..i]));
  }

  lemma {:induction false} UniqueNamesDistinct(raws: seq<string>, prefix: string)
    ensures forall i, j :: 0 <= i < j < |raws| ==>
      UniqueNames(raws, prefix)[i] != UniqueNames(raws, prefix)[j]
  {
    var names := UniqueNames(raws, prefix);
    forall i, j | 0 <= i < j < |raws|
      ensures names[i] != names[j]
    {
      UniqueNamesLeast(raws, prefix, j);
      assert names[i] in names[..j];
    }
  }

  lemma {:induction false} UniqueNamesIdentity(raws: seq<string>, prefix: string)
    requires forall i :: 0 <= i < |raws| ==> IsIdentifier(raws[i]) && !IsGoKeyword(raws[i])
    requires forall i, j :: 0 <= i < j < |raws| ==> raws[i] != raws[j]
    ensures UniqueNames(raws, prefix) == raws
  {
    if raws != [] {
      var n := |raws| - 1;
      UniqueNamesIdentity(raws[..n], prefix);
      SanitizeIdentity(raws[n], prefix + "_" + Decimal.Format(n + 1));
      assert raws[n] !in raws[..n];
    }
  }

  lemma {:induction false} UniqueNamesValid(raws: seq<string>, prefix: string)
    requires WordChars(prefix)
    ensures forall i :: 0 <= i < |raws| ==>
      IsIdentifier(UniqueNames(raws, prefix)[i]) && !IsGoKeyword(UniqueNames(raws, prefix)[i])
  {
    if raws != [] {
      var n := |raws| - 1;
      UniqueNamesValid(raws[..n], prefix);
      Decimal.ParseFormat(n + 1);
      SanitizeValid(raws[n], prefix + "_" + Decimal.Format(n + 1), "n_", false);
      AllocateIdentifier(BaseName(raws, prefix, n), NamesOf(UniqueNames(raws[..n], prefix)));
    }
  }
}
