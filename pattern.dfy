/** The pattern builder `createRegex`: the search text and the panel's options
    become a pattern source and a flag string, which the host's `RegExp`
    constructor compiles or rejects. */
module Pattern {
  import opened Wrappers

  /** The options `performSearch` reads from the panel. `regexEnabled` (the
      "loop search" box) is read but never consulted by the engine. */
  datatype SearchOptions = SearchOptions(
    caseSensitive: bool,
    wholeWord: bool,
    regexEnabled: bool,
    searchMode: string)

  /** A compiled expression: its source and its flags. */
  datatype Regex = Regex(source: string, flags: string)

  const NormalMode: string := "normal"
  const RegexMode: string := "regex"
  const ExtendedMode: string := "extended"

  /** The options of a new panel: not case-sensitive, not whole word, the
      "loop search" box checked and mode `'extended'` selected. */
  const DefaultOptions: SearchOptions := SearchOptions(false, false, true, ExtendedMode)

  // ---------------------------------------------------------------------
  // Mode "normal": backslash-escape the metacharacters.

  /** The characters of the class `[.*+?^${}()|[\]\\]`. */
  predicate IsMeta(c: char) {
    c in ".*+?^${}()|[]\\"
  }

  function MetaCount(s: string): nat {
    if s == [] then 0 else (if IsMeta(s[0]) then 1 else 0) + MetaCount(s[1..])
  }

  /** `searchText.replace(/[.*+?^${}()|[\]\\]/g, '\\$&')`: one backslash before
      every metacharacter, every other character as it is. */
  function Escape(s: string): (r: string)
    ensures |r| == |s| + MetaCount(s)
    ensures forall c :: c in r ==> c in s || c == '\\'
  {
    if s == [] then []
    else (if IsMeta(s[0]) then ['\\', s[0]] else [s[0]]) + Escape(s[1..])
  }

  /** The inverse reading: a backslash followed by a metacharacter stands for
      that metacharacter, anything else for itself. */
  function Unescape(p: string): string {
    if p == [] then []
    else if |p| >= 2 && p[0] == '\\' && IsMeta(p[1]) then [p[1]] + Unescape(p[2..])
    else [p[0]] + Unescape(p[1..])
  }

  /** A pattern made only of escaped metacharacters and plain characters:
      one that a regular-expression engine reads as a fixed string. */
  predicate LiteralPattern(p: string) {
    if p == [] then true
    else if p[0] == '\\' then |p| >= 2 && IsMeta(p[1]) && LiteralPattern(p[2..])
    else !IsMeta(p[0]) && LiteralPattern(p[1..])
  }

  /** Escaping yields a literal pattern whose literal reading is the input. */
  lemma {:induction false} EscapeRoundTrip(s: string)
    ensures LiteralPattern(Escape(s))
    ensures Unescape(Escape(s)) == s
  {
    if s != [] {
      EscapeRoundTrip(s[1..]);
      var rest := Escape(s[1..]);
      if IsMeta(s[0]) {
        var e := ['\\', s[0]] + rest;
        assert e[2..] == rest;
        assert Escape(s) == e;
      } else {
        var e := [s[0]] + rest;
        assert e[1..] == rest;
        assert Escape(s) == e;
      }
    }
  }

  /** Text without metacharacters is passed through unchanged. */
  lemma {:induction false} EscapePlain(s: string)
    requires forall i :: 0 <= i < |s| ==> !IsMeta(s[i])
    ensures Escape(s) == s
  {
    if s != [] {
      EscapePlain(s[1..]);
    }
  }

  // ---------------------------------------------------------------------
  // Mode "regex": the two-character escapes \n \r \t \0 become control
  // characters.

  /** `s.replace(/\\c/g, r)`: a left-to-right scan replacing every
      non-overlapping backslash-`c` pair by `r`. */
  function ReplaceEscape(s: string, c: char, r: char): (t: string)
    ensures |t| <= |s|
    ensures s != [] ==> t != [] && (t[0] == s[0] || t[0] == r)
    ensures forall x :: x in t ==> x in s || x == r
  {
    if s == [] then []
    else if |s| >= 2 && s[0] == '\\' && s[1] == c then [r] + ReplaceEscape(s[2..], c, r)
    else [s[0]] + ReplaceEscape(s[1..], c, r)
  }

  /** No backslash in `s` is directly followed by `c`. */
  predicate NoEscape(s: string, c: char) {
    forall i :: 0 <= i < |s| - 1 ==> !(s[i] == '\\' && s[i + 1] == c)
  }

  lemma NoEscapeCons(x: char, t: string, c: char)
    requires NoEscape(t, c)
    requires !(x == '\\' && t != [] && t[0] == c)
    ensures NoEscape([x] + t, c)
  {
    var s := [x] + t;
    forall i | 0 <= i < |s| - 1 ensures !(s[i] == '\\' && s[i + 1] == c) {
      if i > 0 {
        assert s[i] == t[i - 1] && s[i + 1] == t[i];
      }
    }
  }

  /** After the replacement no backslash-`c` pair is left. */
  lemma {:induction false} ReplaceEscapeRemoves(s: string, c: char, r: char)
    requires c != '\\' && r != '\\' && r != c
    ensures NoEscape(ReplaceEscape(s, c, r), c)
  {
    if s == [] {
    } else if |s| >= 2 && s[0] == '\\' && s[1] == c {
      ReplaceEscapeRemoves(s[2..], c, r);
      NoEscapeCons(r, ReplaceEscape(s[2..], c, r), c);
    } else {
      ReplaceEscapeRemoves(s[1..], c, r);
      NoEscapeCons(s[0], ReplaceEscape(s[1..], c, r), c);
    }
  }

  /** The replacement for `c` creates no backslash-`d` pair that was not
      already there. */
  lemma {:induction false} ReplaceEscapeKeeps(s: string, c: char, r: char, d: char)
    requires NoEscape(s, d)
    requires r != '\\' && r != d
    ensures NoEscape(ReplaceEscape(s, c, r), d)
  {
    if s == [] {
    } else if |s| >= 2 && s[0] == '\\' && s[1] == c {
      assert NoEscape(s[2..], d) by {
        forall i | 0 <= i < |s[2..]| - 1 ensures !(s[2..][i] == '\\' && s[2..][i + 1] == d) {
          assert s[2..][i] == s[i + 2] && s[2..][i + 1] == s[i + 3];
        }
      }
      ReplaceEscapeKeeps(s[2..], c, r, d);
      NoEscapeCons(r, ReplaceEscape(s[2..], c, r), d);
    } else {
      assert NoEscape(s[1..], d) by {
        forall i | 0 <= i < |s[1..]| - 1 ensures !(s[1..][i] == '\\' && s[1..][i + 1] == d) {
          assert s[1..][i] == s[i + 1] && s[1..][i + 1] == s[i + 2];
        }
      }
      ReplaceEscapeKeeps(s[1..], c, r, d);
      NoEscapeCons(s[0], ReplaceEscape(s[1..], c, r), d);
    }
  }

  /** Text without a backslash is left as it is. */
  lemma {:induction false} ReplaceEscapeNoBackslash(s: string, c: char, r: char)
    requires '\\' !in s
    ensures ReplaceEscape(s, c, r) == s
  {
    if s != [] {
      assert forall x :: x in s[1..] ==> x in s;
      ReplaceEscapeNoBackslash(s[1..], c, r);
    }
  }

  /** The inverse of `ReplaceEscape`: every `r` becomes backslash-`c`. */
  function RestoreEscape(t: string, r: char, c: char): (s: string)
    ensures forall x :: x in s ==> x in t || x == '\\' || x == c
  {
    if t == [] then []
    else if t[0] == r then ['\\', c] + RestoreEscape(t[1..], r, c)
    else [t[0]] + RestoreEscape(t[1..], r, c)
  }

  /** When `r` does not occur in the input, restoring undoes the replacement. */
  lemma {:induction false} ReplaceEscapeRoundTrip(s: string, c: char, r: char)
    requires r !in s
    ensures RestoreEscape(ReplaceEscape(s, c, r), r, c) == s
  {
    if s == [] {
    } else if |s| >= 2 && s[0] == '\\' && s[1] == c {
      assert forall x :: x in s[2..] ==> x in s;
      ReplaceEscapeRoundTrip(s[2..], c, r);
      var t := [r] + ReplaceEscape(s[2..], c, r);
      assert t[1..] == ReplaceEscape(s[2..], c, r);
      assert s == ['\\', c] + s[2..];
    } else {
      assert forall x :: x in s[1..] ==> x in s;
      ReplaceEscapeRoundTrip(s[1..], c, r);
      var t := [s[0]] + ReplaceEscape(s[1..], c, r);
      assert t[1..] == ReplaceEscape(s[1..], c, r);
      assert s == [s[0]] + s[1..];
    }
  }

  /** The `'regex'` branch: the four replacements in the source's order. */
  function ExpandControlEscapes(s: string): string {
    ReplaceEscape(ReplaceEscape(ReplaceEscape(ReplaceEscape(s, 'n', '\n'), 'r', '\r'), 't', '\t'), '0', '\0')
  }

  /** Undoes `ExpandControlEscapes`, last replacement first. */
  function RestoreControlEscapes(t: string): string {
    RestoreEscape(RestoreEscape(RestoreEscape(RestoreEscape(t, '\0', '0'), '\t', 't'), '\r', 'r'), '\n', 'n')
  }

  /** No two-character sequence `\n`, `\r`, `\t`, `\0` survives the expansion. */
  lemma ExpandRemovesEscapes(s: string)
    ensures var e := ExpandControlEscapes(s);
      NoEscape(e, 'n') && NoEscape(e, 'r') && NoEscape(e, 't') && NoEscape(e, '0')
  {
    var s1 := ReplaceEscape(s, 'n', '\n');
    var s2 := ReplaceEscape(s1, 'r', '\r');
    var s3 := ReplaceEscape(s2, 't', '\t');
    var s4 := ReplaceEscape(s3, '0', '\0');
    ReplaceEscapeRemoves(s, 'n', '\n');
    ReplaceEscapeKeeps(s1, 'r', '\r', 'n');
    ReplaceEscapeKeeps(s2, 't', '\t', 'n');
    ReplaceEscapeKeeps(s3, '0', '\0', 'n');
    ReplaceEscapeRemoves(s1, 'r', '\r');
    ReplaceEscapeKeeps(s2, 't', '\t', 'r');
    ReplaceEscapeKeeps(s3, '0', '\0', 'r');
    ReplaceEscapeRemoves(s2, 't', '\t');
    ReplaceEscapeKeeps(s3, '0', '\0', 't');
    ReplaceEscapeRemoves(s3, '0', '\0');
  }

  /** Text that holds none of the four control characters is recovered from
      its expansion: exactly the escape pairs were replaced. */
  lemma ExpandRoundTrip(s: string)
    requires '\n' !in s && '\r' !in s && '\t' !in s && '\0' !in s
    ensures RestoreControlEscapes(ExpandControlEscapes(s)) == s
  {
    var s1 := ReplaceEscape(s, 'n', '\n');
    var s2 := ReplaceEscape(s1, 'r', '\r');
    var s3 := ReplaceEscape(s2, 't', '\t');
    ReplaceEscapeRoundTrip(s3, '0', '\0');
    ReplaceEscapeRoundTrip(s2, 't', '\t');
    ReplaceEscapeRoundTrip(s1, 'r', '\r');
    ReplaceEscapeRoundTrip(s, 'n', '\n');
  }

  /** Text without a backslash is not changed by the expansion. */
  lemma ExpandNoBackslash(s: string)
    requires '\\' !in s
    ensures ExpandControlEscapes(s) == s
  {
    ReplaceEscapeNoBackslash(s, 'n', '\n');
    ReplaceEscapeNoBackslash(s, 'r', '\r');
    ReplaceEscapeNoBackslash(s, 't', '\t');
    ReplaceEscapeNoBackslash(s, '0', '\0');
  }

  // ---------------------------------------------------------------------
  // Assembling the pattern and the flags.

  /** The mode transform: `'normal'` escapes, `'regex'` expands control
      escapes, any other value (the default `'extended'`) is verbatim. */
  function TransformText(s: string, mode: string): (p: string)
    ensures mode == NormalMode ==> LiteralPattern(p) && Unescape(p) == s
    ensures mode == RegexMode ==> p == ExpandControlEscapes(s)
    ensures mode == RegexMode ==> NoEscape(p, 'n') && NoEscape(p, 'r') && NoEscape(p, 't') && NoEscape(p, '0')
    ensures mode != NormalMode && mode != RegexMode ==> p == s
  {
    if mode == NormalMode then
      EscapeRoundTrip(s);
      Escape(s)
    else if mode == RegexMode then
      ExpandRemovesEscapes(s);
      ExpandControlEscapes(s)
    else s
  }

  /** The whole-word wrapper `` `\\b${pattern}\\b` ``. */
  function WrapWholeWord(p: string): (w: string)
    ensures |w| == |p| + 4
    ensures w[..2] == "\\b" && w[|w| - 2..] == "\\b"
    ensures w[2..|w| - 2] == p
  {
    "\\b" + p + "\\b"
  }

  /** `g`, then `i` unless case-sensitive, then `u`. */
  function Flags(caseSensitive: bool): (f: string)
    ensures 'g' in f && 'u' in f
    ensures 'i' in f <==> !caseSensitive
    ensures f == if caseSensitive then "gu" else "giu"
  {
    var f := "g";
    var f := if !caseSensitive then f + "i" else f;
    f + "u"
  }

  /** The pattern source handed to `new RegExp`: with whole word it is
      framed by `\b` on both sides; inside the frame (or all of it without
      whole word) mode `'normal'` gives a literal pattern reading as the
      text, mode `'regex'` the control-escape expansion of the text, and any
      other mode the text itself. */
  function BuildPattern(text: string, options: SearchOptions): (p: string)
    ensures options.wholeWord ==> |p| >= 4 && p[..2] == "\\b" && p[|p| - 2..] == "\\b"
    ensures var core := if options.wholeWord then p[2..|p| - 2] else p;
      && (options.searchMode == NormalMode ==> LiteralPattern(core) && Unescape(core) == text)
      && (options.searchMode == RegexMode ==> core == ExpandControlEscapes(text))
      && (options.searchMode != NormalMode && options.searchMode != RegexMode ==> core == text)
  {
    var p := TransformText(text, options.searchMode);
    if options.wholeWord then WrapWholeWord(p) else p
  }

  /** `createRegex`. The host's `RegExp` constructor is the oracle `compiles`:
      it accepts or rejects a pattern and flags; a rejection is caught and
      reported as `null`. */
  function CreateRegex(text: string, options: SearchOptions,
                       compiles: (string, string) -> bool): (r: Option<Regex>)
    ensures r.Some? <==> compiles(BuildPattern(text, options), Flags(options.caseSensitive))
    ensures r.Some? ==> r.value.source == BuildPattern(text, options)
    ensures r.Some? ==> r.value.flags == Flags(options.caseSensitive)
  {
    var pattern := BuildPattern(text, options);
    var flags := Flags(options.caseSensitive);
    if compiles(pattern, flags) then Some(Regex(pattern, flags)) else None
  }

  /** With a new panel's options the search text is used verbatim, with the
      flags `giu`. */
  lemma DefaultPattern(text: string)
    ensures BuildPattern(text, DefaultOptions) == text
    ensures Flags(DefaultOptions.caseSensitive) == "giu"
  {
  }
}
