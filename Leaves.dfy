/**
 * The node kinds whose markup is built from their own fields alone:
 * DocumentType, ProcessingInstruction, Text and Comment, plus the
 * case-insensitive comparison the PI target check uses.
 */
module Leaves {
  import opened Wrappers
  import opened Strings
  import opened Dom

  // ---------------------------------------------------------------------
  // asciiCaseInsensitiveMatch

  /** `s.charCodeAt(i) | 32`: the code unit with bit 5 (value 32) set. */
  function FoldCase(c: char): int {
    var x := c as int;
    if x % 64 >= 32 then x else x + 32
  }

  /** Same length, and every pair of code units agrees once bit 5 is set. */
  predicate CaseInsensitiveMatch(a: string, b: string) {
    |a| == |b| && forall i :: 0 <= i < |a| ==> FoldCase(a[i]) == FoldCase(b[i])
  }

  /** The index loop of the source, proved to decide `CaseInsensitiveMatch`. */
  method AsciiCaseInsensitiveMatch(a: string, b: string) returns (r: bool)
    ensures r == CaseInsensitiveMatch(a, b)
  {
    if |a| != |b| {
      return false;
    }
    var i := 0;
    while i < |a|
      invariant 0 <= i <= |a|
      invariant forall j :: 0 <= j < i ==> FoldCase(a[j]) == FoldCase(b[j])
    {
      if FoldCase(a[i]) != FoldCase(b[i]) {
        return false;
      }
      i := i + 1;
    }
    return true;
  }

  /** The match is an equivalence relation. */
  lemma CaseInsensitiveMatchIsEquivalence(a: string, b: string, c: string)
    ensures CaseInsensitiveMatch(a, a)
    ensures CaseInsensitiveMatch(a, b) ==> CaseInsensitiveMatch(b, a)
    ensures CaseInsensitiveMatch(a, b) && CaseInsensitiveMatch(b, c) ==> CaseInsensitiveMatch(a, c)
  {
  }

  /**
   * Against "xml" (the only use in the walk) the match accepts exactly the
   * eight spellings of x, m, l in either case.
   */
  lemma MatchesXmlExactly(t: string)
    ensures CaseInsensitiveMatch(t, "xml") <==>
      |t| == 3 && t[0] in {'x', 'X'} && t[1] in {'m', 'M'} && t[2] in {'l', 'L'}
  {
    if |t| == 3 {
      FoldCaseLetter(t[0], 'x', 'X');
      FoldCaseLetter(t[1], 'm', 'M');
      FoldCaseLetter(t[2], 'l', 'L');
    }
  }

  /** For a lower-case ASCII letter, setting bit 5 identifies only it and its upper case. */
  lemma FoldCaseLetter(c: char, lower: char, upper: char)
    requires (lower, upper) in {('x', 'X'), ('m', 'M'), ('l', 'L')}
    ensures FoldCase(c) == FoldCase(lower) <==> c == lower || c == upper
  {
  }

  // ---------------------------------------------------------------------
  // Text

  /** `s.replace(/c/g, replacement)` for a one-character pattern. */
  function ReplaceAll(s: string, c: char, replacement: string): string {
    if s == [] then [] else (if s[0] == c then replacement else [s[0]]) + ReplaceAll(s[1..], c, replacement)
  }

  /** Text node markup: `&` replaced first, then `<`, then `>`. */
  function EscapeText(data: string): (r: string)
    ensures '<' !in r && '>' !in r
  {
    var amp := ReplaceAll(data, '&', "&amp;");
    var lt := ReplaceAll(amp, '<', "&lt;");
    ReplaceAllRemoves(amp, '<', "&lt;");
    ReplaceAllKeepsAbsent(lt, '<', '>', "&gt;");
    ReplaceAllRemoves(lt, '>', "&gt;");
    Passes(data)
  }

  /** A replacement without the pattern character leaves none of it behind. */
  lemma {:induction false} ReplaceAllRemoves(s: string, c: char, replacement: string)
    requires c !in replacement
    ensures c !in ReplaceAll(s, c, replacement)
  {
    if s != [] {
      ReplaceAllRemoves(s[1..], c, replacement);
    }
  }

  /** A character neither in the input nor in the replacement is not in the output. */
  lemma {:induction false} ReplaceAllKeepsAbsent(s: string, d: char, c: char, replacement: string)
    requires d !in s && d !in replacement
    ensures d !in ReplaceAll(s, c, replacement)
  {
    if s != [] {
      ReplaceAllKeepsAbsent(s[1..], d, c, replacement);
    }
  }

  /** The escape of one character. */
  function EscapeChar(c: char): string {
    if c == '&' then "&amp;" else if c == '<' then "&lt;" else if c == '>' then "&gt;" else [c]
  }

  /** Decoding of the three entities the text escape produces. */
  function UnescapeText(s: string): string {
    if s == [] then []
    else if StartsWith(s, "&amp;") then "&" + UnescapeText(s[5..])
    else if StartsWith(s, "&lt;") then "<" + UnescapeText(s[4..])
    else if StartsWith(s, "&gt;") then ">" + UnescapeText(s[4..])
    else [s[0]] + UnescapeText(s[1..])
  }

  lemma {:induction false} ReplaceAllAppend(a: string, b: string, c: char, replacement: string)
    ensures ReplaceAll(a + b, c, replacement) == ReplaceAll(a, c, replacement) + ReplaceAll(b, c, replacement)
  {
    if a == [] {
      assert a + b == b;
    } else {
      assert (a + b)[0] == a[0];
      assert (a + b)[1..] == a[1..] + b;
      ReplaceAllAppend(a[1..], b, c, replacement);
    }
  }

  lemma {:induction false} ReplaceAllAbsent(s: string, c: char, replacement: string)
    requires c !in s
    ensures ReplaceAll(s, c, replacement) == s
  {
    if s != [] {
      ReplaceAllAbsent(s[1..], c, replacement);
    }
  }

  /** The three passes applied in order, with no facts attached. */
  function Passes(s: string): string {
    ReplaceAll(ReplaceAll(ReplaceAll(s, '&', "&amp;"), '<', "&lt;"), '>', "&gt;")
  }

  /** The three passes distribute over concatenation. */
  lemma PassesAppend(a: string, b: string)
    ensures Passes(a + b) == Passes(a) + Passes(b)
  {
    var a1, b1 := ReplaceAll(a, '&', "&amp;"), ReplaceAll(b, '&', "&amp;");
    ReplaceAllAppend(a, b, '&', "&amp;");
    var a2, b2 := ReplaceAll(a1, '<', "&lt;"), ReplaceAll(b1, '<', "&lt;");
    ReplaceAllAppend(a1, b1, '<', "&lt;");
    ReplaceAllAppend(a2, b2, '>', "&gt;");
  }

  /** On one character the three passes give its escape: no pass re-escapes an earlier one's entity. */
  lemma PassesChar(x: char)
    ensures Passes([x]) == EscapeChar(x)
  {
    var s1 := ReplaceAll([x], '&', "&amp;");
    var s2 := ReplaceAll(s1, '<', "&lt;");
    assert [x][0] == x && [x][1..] == [];
    assert ReplaceAll([], '&', "&amp;") == [];
    assert ReplaceAll([], '<', "&lt;") == [];
    assert ReplaceAll([], '>', "&gt;") == [];
    if x == '&' {
      assert s1 == "&amp;";
      ReplaceAllAbsent("&amp;", '<', "&lt;");
      ReplaceAllAbsent("&amp;", '>', "&gt;");
    } else if x == '<' {
      assert s1 == "<";
      assert s2 == "&lt;";
      ReplaceAllAbsent("&lt;", '>', "&gt;");
    } else {
      assert s1 == [x];
      assert s2 == [x];
    }
  }

  /** The three sequential passes escape a leading character independently of the rest. */
  lemma EscapeTextCons(x: char, rest: string)
    ensures EscapeText([x] + rest) == EscapeChar(x) + EscapeText(rest)
  {
    PassesAppend([x], rest);
    PassesChar(x);
  }

  /** Escaping is per character: the sequential passes never re-escape their own output. */
  lemma {:induction false} EscapeTextPerChar(s: string)
    ensures |s| == 0 ==> EscapeText(s) == []
    ensures |s| > 0 ==> EscapeText(s) == EscapeChar(s[0]) + EscapeText(s[1..])
  {
    if |s| > 0 {
      assert s == [s[0]] + s[1..];
      EscapeTextCons(s[0], s[1..]);
    } else {
      assert ReplaceAll([], '&', "&amp;") == [];
    }
  }

  /** Decoding reads an escaped character back and then carries on with the rest. */
  lemma UnescapeEscapedChar(x: char, rest: string)
    ensures UnescapeText(EscapeChar(x) + rest) == [x] + UnescapeText(rest)
  {
    if x == '&' {
      UnescapeEntity("&amp;", '&', rest);
    } else if x == '<' {
      UnescapeEntity("&lt;", '<', rest);
    } else if x == '>' {
      UnescapeEntity("&gt;", '>', rest);
    } else {
      var e := [x] + rest;
      assert e[0] == x && e[1..] == rest;
      assert !StartsWith(e, "&amp;") && !StartsWith(e, "&lt;") && !StartsWith(e, "&gt;") by {
        assert e[..1] == [x];
      }
    }
  }

  /** One of the three entities in front is decoded to its character. */
  lemma UnescapeEntity(entity: string, x: char, rest: string)
    requires (entity, x) in {("&amp;", '&'), ("&lt;", '<'), ("&gt;", '>')}
    ensures UnescapeText(entity + rest) == [x] + UnescapeText(rest)
  {
    var e := entity + rest;
    assert e[..|entity|] == entity && e[|entity|..] == rest;
    assert StartsWith(e, entity);
    if entity != "&amp;" {
      assert e[1] == entity[1];
      assert !StartsWith(e, "&amp;") by {
        if 5 <= |e| { assert e[..5][1] == e[1]; }
      }
    }
    if entity == "&gt;" {
      assert !StartsWith(e, "&lt;") by {
        assert e[..4][1] == e[1];
      }
    }
  }

  /** Decoding the three entities gives the text data back. */
  lemma {:induction false} UnescapeEscapeText(s: string)
    ensures UnescapeText(EscapeText(s)) == s
  {
    EscapeTextPerChar(s);
    if |s| > 0 {
      UnescapeEscapeText(s[1..]);
      UnescapeEscapedChar(s[0], EscapeText(s[1..]));
      assert s == [s[0]] + s[1..];
    }
  }

  /**
   * Escaped text has no raw `<` or `>`, and every `&` in it begins one of
   * the three entities.
   */
  lemma {:induction false} EscapedTextIsCharacterData(s: string)
    ensures '<' !in EscapeText(s) && '>' !in EscapeText(s)
    ensures forall i :: 0 <= i < |EscapeText(s)| && EscapeText(s)[i] == '&' ==>
      StartsWith(EscapeText(s)[i..], "&amp;") || StartsWith(EscapeText(s)[i..], "&lt;") ||
      StartsWith(EscapeText(s)[i..], "&gt;")
  {
    EscapeTextPerChar(s);
    if |s| > 0 {
      EscapedTextIsCharacterData(s[1..]);
      var head := EscapeChar(s[0]);
      var rest := EscapeText(s[1..]);
      var e := head + rest;
      forall i | 0 <= i < |e| && e[i] == '&'
        ensures StartsWith(e[i..], "&amp;") || StartsWith(e[i..], "&lt;") || StartsWith(e[i..], "&gt;")
      {
        if i < |head| {
          assert i == 0;
          assert e[i..][..|head|] == head;
        } else {
          assert e[i..] == rest[i - |head|..];
        }
      }
    }
  }

  /** Text without `&`, `<` or `>` (a tab, for one) is emitted unchanged. */
  lemma {:induction false} PlainTextUnchanged(s: string)
    requires '&' !in s && '<' !in s && '>' !in s
    ensures EscapeText(s) == s
  {
    ReplaceAllAbsent(s, '&', "&amp;");
    ReplaceAllAbsent(s, '<', "&lt;");
    ReplaceAllAbsent(s, '>', "&gt;");
  }

  // ---------------------------------------------------------------------
  // CDATASection

  /** A CDATA section keeps its data verbatim between `<![CDATA[` and `]]>`. */
  function SerializeCDataSection(data: string): (r: string)
    ensures |r| == |data| + 12
    ensures r[..9] == "<![CDATA[" && r[9..|r| - 3] == data && r[|r| - 3..] == "]]>"
  {
    "<![CDATA[" + data + "]]>"
  }

  /**
   * The node-type switch has no CDATASection case: the walk returns
   * `undefined`, and appending that to the parent's markup spells it out.
   */
  function CDataSectionAsWritten(data: string): string {
    "undefined"
  }

  /**
   * As written, a CDATA section's data is lost: two sections with different
   * data serialize alike, while the intended markup tells them apart.
   */
  lemma CDataSectionDataLost(a: string, b: string)
    requires a != b
    ensures CDataSectionAsWritten(a) == CDataSectionAsWritten(b)
    ensures SerializeCDataSection(a) != SerializeCDataSection(b)
  {
  }

  // ---------------------------------------------------------------------
  // Comment

  /** `<!--data-->`; strict mode refuses `--` anywhere or a final `-`. */
  function SerializeComment(data: string, requireWellFormed: bool): (r: Result<string, ErrKind>)
    ensures r.Err? <==> requireWellFormed && (Contains(data, "--") || EndsWith(data, '-'))
    ensures r.Err? ==> r.error == IllegalHyphens
    ensures r.Ok? ==> |r.value| == |data| + 7
    ensures r.Ok? ==> r.value[..4] == "<!--" && r.value[|r.value| - 3..] == "-->" &&
                      r.value[4..|r.value| - 3] == data
  {
    if requireWellFormed && (Contains(data, "--") || EndsWith(data, '-')) then Err(IllegalHyphens)
    else Ok("<!--" + data + "-->")
  }

  /**
   * In strict mode no `--` starts inside the data, not even one that runs
   * into the closing `-->`, so the comment cannot end early or run on.
   */
  lemma StrictCommentIsWellFormed(data: string, out: string)
    requires SerializeComment(data, true) == Ok(out)
    ensures forall i :: 4 <= i < |out| - 3 ==> !(out[i] == '-' && out[i + 1] == '-')
  {
    assert out == "<!--" + data + "-->";
    forall i | 4 <= i < |out| - 3
      ensures !(out[i] == '-' && out[i + 1] == '-')
    {
      assert out[i] == data[i - 4];
      if i + 1 < |out| - 3 {
        assert out[i + 1] == data[i - 3];
        if out[i] == '-' && out[i + 1] == '-' {
          ContainsPair(data, i - 4, '-', '-');
        }
      } else {
        assert i - 4 == |data| - 1 && !EndsWith(data, '-');
      }
    }
  }

  // ---------------------------------------------------------------------
  // ProcessingInstruction

  /** The target rule: no `:` and not a case variant of "xml". */
  predicate BadTarget(target: string) {
    ':' in target || CaseInsensitiveMatch(target, "xml")
  }

  /** `<?target data?>`; strict mode checks the target first, then the data. */
  function SerializeProcessingInstruction(target: string, data: string, requireWellFormed: bool): (r: Result<string, ErrKind>)
    ensures r.Err? <==> requireWellFormed && (BadTarget(target) || Contains(data, "?>"))
    ensures r.Err? ==> r.error == if BadTarget(target) then TargetNotWellFormed else DataNotWellFormed
    ensures r.Ok? ==> |r.value| == |target| + |data| + 5
    ensures r.Ok? ==> r.value[..2] == "<?" && r.value[2..2 + |target|] == target &&
                      r.value[2 + |target|] == ' ' && r.value[3 + |target|..|r.value| - 2] == data &&
                      r.value[|r.value| - 2..] == "?>"
  {
    if requireWellFormed && BadTarget(target) then Err(TargetNotWellFormed)
    else if requireWellFormed && Contains(data, "?>") then Err(DataNotWellFormed)
    else Ok("<?" + target + " " + data + "?>")
  }

  /** In strict mode the data cannot close the instruction before its final `?>`. */
  lemma StrictProcessingInstructionData(target: string, data: string, out: string)
    requires SerializeProcessingInstruction(target, data, true) == Ok(out)
    ensures forall i :: 3 + |target| <= i < |out| - 2 ==> !(out[i] == '?' && out[i + 1] == '>')
  {
    assert out == "<?" + target + " " + data + "?>";
    forall i | 3 + |target| <= i < |out| - 2
      ensures !(out[i] == '?' && out[i + 1] == '>')
    {
      var j := i - 3 - |target|;
      assert out[i] == data[j];
      if j + 1 < |data| {
        assert out[i + 1] == data[j + 1];
        if out[i] == '?' && out[i + 1] == '>' {
          ContainsPair(data, j, '?', '>');
        }
      } else {
        assert out[i + 1] == '?';
      }
    }
  }

  // ---------------------------------------------------------------------
  // DocumentType

  /**
   * `<!DOCTYPE name`, then ` PUBLIC "pub"` or a bare ` SYSTEM`, then the
   * system literal, then `>`; quotes inside the ids are not escaped.
   */
  function SerializeDocumentType(name: string, publicId: string, systemId: string, requireWellFormed: bool): (r: Result<string, ErrKind>)
    ensures r.Err? <==> requireWellFormed && '"' in systemId && '\'' in systemId
    ensures r.Err? ==> r.error == SystemIdNotWellFormed
    ensures r.Ok? && publicId == "" && systemId == "" ==>
      r.value == "<!DOCTYPE " + name + ">"
    ensures r.Ok? && publicId != "" && systemId == "" ==>
      r.value == "<!DOCTYPE " + name + " PUBLIC \"" + publicId + "\">"
    ensures r.Ok? && publicId == "" && systemId != "" ==>
      r.value == "<!DOCTYPE " + name + " SYSTEM \"" + systemId + "\">"
    ensures r.Ok? && publicId != "" && systemId != "" ==>
      r.value == "<!DOCTYPE " + name + " PUBLIC \"" + publicId + "\" \"" + systemId + "\">"
  {
    if requireWellFormed && '"' in systemId && '\'' in systemId then Err(SystemIdNotWellFormed)
    else
      var markup := "<!DOCTYPE " + name;
      var withPublic :=
        if publicId != "" then markup + " PUBLIC \"" + publicId + "\""
        else if systemId != "" then markup + " SYSTEM"
        else markup;
      var withSystem := if systemId != "" then withPublic + " \"" + systemId + "\"" else withPublic;
      Ok(withSystem + ">")
  }
}
