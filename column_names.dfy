/**
  Column-name normalisation (`limpiar_nombre_columna`): lower-case the label,
  turn every run of characters outside `[a-z0-9]` into one underscore, squeeze
  repeated underscores and strip underscores at both ends.
 */
module ColumnNames {

  predicate IsLowerAlnum(c: char) {
    'a' <= c <= 'z' || '0' <= c <= '9'
  }

  /** The characters a normalised name may hold: `[a-z0-9_]`. */
  predicate IsNameChar(c: char) {
    IsLowerAlnum(c) || c == '_'
  }

  /** The class `[^a-z0-9]` of the first substitution. */
  predicate IsSeparator(c: char) {
    !IsLowerAlnum(c)
  }

  /** The class `_` of the second substitution. */
  predicate IsUnderscore(c: char) {
    c == '_'
  }

  predicate AllNameChars(s: string) {
    forall i :: 0 <= i < |s| ==> IsNameChar(s[i])
  }

  predicate NoDoubleUnderscore(s: string) {
    forall i :: 1 <= i < |s| ==> !(s[i - 1] == '_' && s[i] == '_')
  }

  /** What a normalised column name looks like. */
  predicate IsNormalized(s: string) {
    && AllNameChars(s)
    && NoDoubleUnderscore(s)
    && (s != [] ==> s[0] != '_' && s[|s| - 1] != '_')
  }

  /** ASCII lower-casing of one character. */
  function LowerChar(c: char): (r: char)
    ensures !('A' <= r <= 'Z')
    ensures 'a' <= r <= 'z' ==> ('a' <= c <= 'z' || 'A' <= c <= 'Z')
    ensures !('A' <= c <= 'Z') ==> r == c
  {
    if 'A' <= c <= 'Z' then (c as int - 'A' as int + 'a' as int) as char else c
  }

  /** `str.lower` restricted to ASCII. */
  function Lower(s: string): (r: string)
    ensures |r| == |s|
    ensures forall i :: 0 <= i < |r| ==> !('A' <= r[i] <= 'Z')
  {
    seq(|s|, i requires 0 <= i < |s| => LowerChar(s[i]))
  }

  /**
    `re.sub(P + '+', '_', s)` for a character class P: every maximal run of
    characters of P becomes a single underscore, every other character is kept.
    `inRun` records that the preceding character was part of a run that has
    already produced its underscore.
   */
  function ReplaceRuns(s: string, inClass: char -> bool, inRun: bool): (r: string)
    decreases |s|
    ensures |r| <= |s|
  {
    if s == [] then []
    else
      var opensOrContinuesRun := inClass(s[0]);
      var emitted := if !opensOrContinuesRun then [s[0]] else if inRun then [] else "_";
      emitted + ReplaceRuns(s[1..], inClass, opensOrContinuesRun)
  }

  /** `str.lstrip('_')`. */
  function TrimStart(s: string): string {
    if s != [] && s[0] == '_' then TrimStart(s[1..]) else s
  }

  /** `str.rstrip('_')`. */
  function TrimEnd(s: string): string {
    if s != [] && s[|s| - 1] == '_' then TrimEnd(s[..|s| - 1]) else s
  }

  /** Line 27: runs of `[^a-z0-9]` become `_`. */
  function ReplaceSeparators(s: string): string {
    ReplaceRuns(s, IsSeparator, false)
  }

  /** Line 29: runs of `_` become one `_`. */
  function SqueezeUnderscores(s: string): string {
    ReplaceRuns(s, IsUnderscore, false)
  }

  /** `limpiar_nombre_columna`. */
  function Normalize(name: string): string {
    var replaced := ReplaceSeparators(Lower(name));
    TrimEnd(TrimStart(SqueezeUnderscores(replaced)))
  }

  /** The characters of `s` in `[a-z0-9]`, in their order. */
  function Alphanumerics(s: string): string {
    if s == [] then [] else (if IsLowerAlnum(s[0]) then [s[0]] else []) + Alphanumerics(s[1..])
  }

  // ---------------------------------------------------------------------------
  // What a substitution produces

  /** A substitution emits only underscores and characters outside its class. */
  lemma {:induction false} ReplaceRunsEmits(s: string, inClass: char -> bool, inRun: bool)
    ensures forall i :: 0 <= i < |ReplaceRuns(s, inClass, inRun)| ==>
              ReplaceRuns(s, inClass, inRun)[i] == '_' || !inClass(ReplaceRuns(s, inClass, inRun)[i])
  {
    if s != [] {
      ReplaceRunsEmits(s[1..], inClass, inClass(s[0]));
    }
  }

  /**
    When the class contains `_`, a substitution never leaves two adjacent
    underscores, and inside a run its output does not start with one.
   */
  lemma {:induction false} ReplaceRunsNoDouble(s: string, inClass: char -> bool, inRun: bool)
    requires inClass('_')
    ensures NoDoubleUnderscore(ReplaceRuns(s, inClass, inRun))
    ensures inRun ==> ReplaceRuns(s, inClass, inRun) == [] || ReplaceRuns(s, inClass, inRun)[0] != '_'
  {
    if s != [] {
      ReplaceRunsNoDouble(s[1..], inClass, inClass(s[0]));
      var rest := ReplaceRuns(s[1..], inClass, inClass(s[0]));
      if !inClass(s[0]) {
        assert ReplaceRuns(s, inClass, inRun) == [s[0]] + rest;
      } else if !inRun {
        assert ReplaceRuns(s, inClass, inRun) == "_" + rest;
      }
    }
  }

  /**
    A substitution leaves a string unchanged when the only characters of its
    class in it are lone underscores (and, inside a run, none comes first).
   */
  lemma {:induction false} ReplaceRunsIdentity(s: string, inClass: char -> bool, inRun: bool)
    requires forall i :: 0 <= i < |s| && inClass(s[i]) ==> s[i] == '_'
    requires NoDoubleUnderscore(s)
    requires inRun ==> s == [] || s[0] != '_'
    ensures ReplaceRuns(s, inClass, inRun) == s
  {
    if s != [] {
      assert forall i :: 1 <= i < |s[1..]| ==> s[1..][i - 1] == s[i] && s[1..][i] == s[i + 1];
      ReplaceRunsIdentity(s[1..], inClass, inClass(s[0]));
      assert s == [s[0]] + s[1..];
    }
  }

  /** A substitution keeps the `[a-z0-9]` characters, in order, when its class has none. */
  lemma {:induction false} ReplaceRunsKeepsAlphanumerics(s: string, inClass: char -> bool, inRun: bool)
    requires forall i :: 0 <= i < |s| && inClass(s[i]) ==> !IsLowerAlnum(s[i])
    ensures Alphanumerics(ReplaceRuns(s, inClass, inRun)) == Alphanumerics(s)
  {
    if s != [] {
      var rest := ReplaceRuns(s[1..], inClass, inClass(s[0]));
      var emitted := if !inClass(s[0]) then [s[0]] else if inRun then [] else "_";
      ReplaceRunsKeepsAlphanumerics(s[1..], inClass, inClass(s[0]));
      AlphanumericsAppend(emitted, rest);
      assert emitted != [] ==> emitted[1..] == [];
    }
  }

  lemma {:induction false} AlphanumericsAppend(a: string, b: string)
    ensures Alphanumerics(a + b) == Alphanumerics(a) + Alphanumerics(b)
  {
    if a != [] {
      assert (a + b)[1..] == a[1..] + b;
      AlphanumericsAppend(a[1..], b);
    } else {
      assert a + b == b;
    }
  }

  lemma {:induction false} AlphanumericsOfUnderscores(s: string)
    requires forall i :: 0 <= i < |s| ==> s[i] == '_'
    ensures Alphanumerics(s) == []
  {
    if s != [] {
      AlphanumericsOfUnderscores(s[1..]);
    }
  }

  /** `lstrip('_')` removes a prefix of underscores and leaves no leading underscore. */
  lemma {:induction false} TrimStartShape(s: string)
    ensures |TrimStart(s)| <= |s| && TrimStart(s) == s[|s| - |TrimStart(s)|..]
    ensures TrimStart(s) == [] || TrimStart(s)[0] != '_'
    ensures forall i :: 0 <= i < |s| - |TrimStart(s)| ==> s[i] == '_'
  {
    if s != [] && s[0] == '_' {
      var rest := s[1..];
      TrimStartShape(rest);
      var t := TrimStart(rest);
      assert TrimStart(s) == t;
      assert rest[|rest| - |t|..] == s[|s| - |t|..];
      forall i | 0 <= i < |s| - |t| ensures s[i] == '_' {
        if i > 0 {
          assert s[i] == rest[i - 1];
        }
      }
    } else {
      assert s[0..] == s;
    }
  }

  /** `rstrip('_')` removes a suffix of underscores and leaves no trailing underscore. */
  lemma {:induction false} TrimEndShape(s: string)
    ensures |TrimEnd(s)| <= |s| && TrimEnd(s) == s[..|TrimEnd(s)|]
    ensures TrimEnd(s) == [] || TrimEnd(s)[|TrimEnd(s)| - 1] != '_'
    ensures forall i :: |TrimEnd(s)| <= i < |s| ==> s[i] == '_'
  {
    if s != [] && s[|s| - 1] == '_' {
      var init := s[..|s| - 1];
      TrimEndShape(init);
      var t := TrimEnd(init);
      assert TrimEnd(s) == t;
      assert init[..|t|] == s[..|t|];
      forall i | |t| <= i < |s| ensures s[i] == '_' {
        if i < |s| - 1 {
          assert s[i] == init[i];
        }
      }
    } else {
      assert s[..|s|] == s;
    }
  }

  // ---------------------------------------------------------------------------
  // Properties of Normalize

  /**
    Line 29 does nothing: after line 27 no two underscores are adjacent, so
    squeezing runs of underscores returns its input.
   */
  lemma {:induction false} SqueezeAfterReplaceIsIdentity(s: string)
    ensures SqueezeUnderscores(ReplaceSeparators(s)) == ReplaceSeparators(s)
  {
    var r := ReplaceSeparators(s);
    ReplaceRunsNoDouble(s, IsSeparator, false);
    ReplaceRunsIdentity(r, IsUnderscore, false);
  }

  /**
    A normalised name holds only `[a-z0-9_]`, has no underscore at either end
    and no two adjacent underscores.
   */
  lemma {:induction false} NormalizeIsNormalized(name: string)
    ensures IsNormalized(Normalize(name))
  {
    var replaced := ReplaceSeparators(Lower(name));
    ReplaceRunsEmits(Lower(name), IsSeparator, false);
    ReplaceRunsNoDouble(Lower(name), IsSeparator, false);
    SqueezeAfterReplaceIsIdentity(Lower(name));
    var front := TrimStart(replaced);
    var r := TrimEnd(front);
    TrimStartShape(replaced);
    TrimEndShape(front);
    SliceKeepsNameShape(replaced, |replaced| - |front|, |replaced|);
    SliceKeepsNameShape(front, 0, |r|);
  }

  /** A slice of a string of name characters without doubled underscores is one too. */
  lemma {:induction false} SliceKeepsNameShape(s: string, lo: nat, hi: nat)
    requires lo <= hi <= |s|
    requires AllNameChars(s) && NoDoubleUnderscore(s)
    ensures AllNameChars(s[lo..hi]) && NoDoubleUnderscore(s[lo..hi])
  {
    var t := s[lo..hi];
    forall i | 1 <= i < |t| ensures !(t[i - 1] == '_' && t[i] == '_') {
      assert t[i - 1] == s[lo + i - 1] && t[i] == s[lo + i];
    }
  }

  /** A name that is already normalised is left as it is. */
  lemma {:induction false} NormalizedIsFixpoint(name: string)
    requires IsNormalized(name)
    ensures Normalize(name) == name
  {
    assert Lower(name) == name;
    ReplaceRunsIdentity(name, IsSeparator, false);
    ReplaceRunsIdentity(name, IsUnderscore, false);
  }

  /** Normalisation is idempotent. */
  lemma {:induction false} NormalizeIdempotent(name: string)
    ensures Normalize(Normalize(name)) == Normalize(name)
  {
    NormalizeIsNormalized(name);
    NormalizedIsFixpoint(Normalize(name));
  }

  /** `lstrip('_')` removes no `[a-z0-9]` character. */
  lemma {:induction false} TrimStartKeepsAlphanumerics(s: string)
    ensures Alphanumerics(TrimStart(s)) == Alphanumerics(s)
  {
    var front := TrimStart(s);
    TrimStartShape(s);
    var k := |s| - |front|;
    assert s == s[..k] + front;
    AlphanumericsAppend(s[..k], front);
    AlphanumericsOfUnderscores(s[..k]);
  }

  /** `rstrip('_')` removes no `[a-z0-9]` character. */
  lemma {:induction false} TrimEndKeepsAlphanumerics(s: string)
    ensures Alphanumerics(TrimEnd(s)) == Alphanumerics(s)
  {
    var back := TrimEnd(s);
    TrimEndShape(s);
    var k := |back|;
    assert s == back + s[k..];
    AlphanumericsAppend(back, s[k..]);
    AlphanumericsOfUnderscores(s[k..]);
  }

  /** The `[a-z0-9]` characters of the lower-cased name survive, in their order. */
  lemma {:induction false} NormalizeKeepsAlphanumerics(name: string)
    ensures Alphanumerics(Normalize(name)) == Alphanumerics(Lower(name))
  {
    var lowered := Lower(name);
    var replaced := ReplaceSeparators(lowered);
    ReplaceRunsKeepsAlphanumerics(lowered, IsSeparator, false);
    SqueezeAfterReplaceIsIdentity(lowered);
    TrimStartKeepsAlphanumerics(replaced);
    TrimEndKeepsAlphanumerics(TrimStart(replaced));
  }

  /** A word with no character of the class is copied, and ends any run. */
  lemma {:induction false} ReplaceRunsWord(w: string, s: string, inClass: char -> bool, inRun: bool)
    requires w != [] && forall i :: 0 <= i < |w| ==> !inClass(w[i])
    ensures ReplaceRuns(w + s, inClass, inRun) == w + ReplaceRuns(s, inClass, false)
  {
    assert (w + s)[1..] == w[1..] + s;
    if |w| > 1 {
      ReplaceRunsWord(w[1..], s, inClass, false);
    }
  }

  /** A run of characters of the class gives one underscore, unless a run was already open. */
  lemma {:induction false} ReplaceRunsRun(r: string, s: string, inClass: char -> bool, inRun: bool)
    requires r != [] && forall i :: 0 <= i < |r| ==> inClass(r[i])
    ensures ReplaceRuns(r + s, inClass, inRun) == (if inRun then "" else "_") + ReplaceRuns(s, inClass, true)
  {
    assert (r + s)[1..] == r[1..] + s;
    if |r| > 1 {
      ReplaceRunsRun(r[1..], s, inClass, true);
    }
  }

  /**
    A name whose lower-cased form is three words, each followed by a run of
    separators, normalises to the three words joined by underscores.
   */
  lemma {:induction false} NormalizeThreeWords(name: string, w1: string, r1: string, w2: string, r2: string, w3: string, r3: string)
    requires w1 != [] && w2 != [] && w3 != [] && r1 != [] && r2 != [] && r3 != []
    requires forall i :: 0 <= i < |w1| ==> IsLowerAlnum(w1[i])
    requires forall i :: 0 <= i < |w2| ==> IsLowerAlnum(w2[i])
    requires forall i :: 0 <= i < |w3| ==> IsLowerAlnum(w3[i])
    requires forall i :: 0 <= i < |r1| ==> IsSeparator(r1[i])
    requires forall i :: 0 <= i < |r2| ==> IsSeparator(r2[i])
    requires forall i :: 0 <= i < |r3| ==> IsSeparator(r3[i])
    requires Lower(name) == w1 + (r1 + (w2 + (r2 + (w3 + r3))))
    ensures Normalize(name) == w1 + "_" + w2 + "_" + w3
  {
    var lowered := Lower(name);
    ReplaceRunsRun(r3, "", IsSeparator, false);
    assert r3 + "" == r3;
    ReplaceRunsWord(w3, r3, IsSeparator, true);
    ReplaceRunsRun(r2, w3 + r3, IsSeparator, false);
    ReplaceRunsWord(w2, r2 + (w3 + r3), IsSeparator, true);
    ReplaceRunsRun(r1, w2 + (r2 + (w3 + r3)), IsSeparator, false);
    ReplaceRunsWord(w1, r1 + (w2 + (r2 + (w3 + r3))), IsSeparator, false);
    var replaced := ReplaceSeparators(lowered);
    var joined := w1 + "_" + w2 + "_" + w3;
    assert replaced == joined + "_";
    SqueezeAfterReplaceIsIdentity(lowered);
    assert TrimStart(replaced) == replaced;
    assert replaced[..|replaced| - 1] == joined;
    assert TrimEnd(replaced) == TrimEnd(joined);
  }

  /** Lower-casing the worked example splits it into its words and separator runs. */
  lemma {:induction false} ExampleLowered(name: string)
    requires name == "Fecha Reporte (2020)!!"
    ensures Lower(name) == "fecha" + (" " + ("reporte" + (" (" + ("2020" + ")!!"))))
  {
    assert Lower(name) == "fecha reporte (2020)!!";
  }

  /** The worked example: `"Fecha Reporte (2020)!!"` becomes `"fecha_reporte_2020"`. */
  lemma {:induction false} NormalizeExample(name: string)
    requires name == "Fecha Reporte (2020)!!"
    ensures Normalize(name) == "fecha_reporte_2020"
  {
    var w1, r1, w2, r2, w3, r3 := "fecha", " ", "reporte", " (", "2020", ")!!";
    ExampleLowered(name);
    assert forall i :: 0 <= i < |w1| ==> IsLowerAlnum(w1[i]);
    assert forall i :: 0 <= i < |w2| ==> IsLowerAlnum(w2[i]);
    assert forall i :: 0 <= i < |w3| ==> IsLowerAlnum(w3[i]);
    assert forall i :: 0 <= i < |r1| ==> IsSeparator(r1[i]);
    assert forall i :: 0 <= i < |r2| ==> IsSeparator(r2[i]);
    assert forall i :: 0 <= i < |r3| ==> IsSeparator(r3[i]);
    NormalizeThreeWords(name, w1, r1, w2, r2, w3, r3);
    assert w1 + "_" + w2 + "_" + w3 == "fecha_reporte_2020";
  }
}
