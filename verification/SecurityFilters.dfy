/** The filter object: which paths are ignored, what becomes of a file's content,
    and the verdict over both. */
module SecurityFilters {
  import opened Wrappers
  import opened RegexText
  import opened IgnoreRules
  import opened ContentMask

  datatype Action = Allow | Masked | Block

  datatype Processed = Processed(action: Action, text: string, reasons: seq<string>, findings: seq<string>)

  datatype Details = Details(sensitiveFile: bool, ignored: bool, content: seq<string>)

  datatype Verdict = Verdict(
    allowed: bool, reasons: seq<string>, details: Details, contentAction: Action, maskedContent: Option<string>)

  predicate Hit(p: Pattern, text: string) {
    SpansOf(p, text) != []
  }

  ghost predicate AnyHit(patterns: seq<Pattern>, text: string) {
    exists k :: 0 <= k < |patterns| && Hit(patterns[k], text)
  }

  /** Messages of the patterns that hit, in pattern order. */
  function Messages(patterns: seq<Pattern>, text: string, message: Pattern -> string): seq<string> {
    if patterns == [] then []
    else
      var last := |patterns| - 1;
      Messages(patterns[..last], text, message) + (if Hit(patterns[last], text) then [message(patterns[last])] else [])
  }

  const STRICT_REASON := "Strict mode: sensitive content blocked entirely"
  const MASKED_REASON := "Sensitive content masked"
  const IGNORED_REASON := "Ignored by .gitignore/.aiignore: "

  class SecurityFilter {
    var gitignoreRules: seq<IgnoreRule>
    var aiignoreRules: seq<IgnoreRule>
    var strict: bool
    const sensitivePatterns: seq<Pattern>
    const vulgarPatterns: seq<Pattern>
    const maskPlaceholder: string
    const oracle: ClassOracle
    /** Reason a path is refused, reason a file counts as sensitive, path below the project root. */
    const pathDenied: string -> Option<string>
    const sensitiveFile: string -> Option<string>
    const relative: string -> Option<string>

    ghost predicate Valid() {
      AllSound(sensitivePatterns) && AllSound(vulgarPatterns)
    }

    constructor (git: seq<IgnoreRule>, ai: seq<IgnoreRule>, strict: bool,
                 sensitive: seq<Pattern>, vulgar: seq<Pattern>, oracle: ClassOracle,
                 denied: string -> Option<string>, sensitiveFile: string -> Option<string>,
                 relative: string -> Option<string>)
      requires AllSound(sensitive) && AllSound(vulgar)
      ensures Valid() && gitignoreRules == git && aiignoreRules == ai && this.strict == strict
      ensures sensitivePatterns == sensitive && vulgarPatterns == vulgar && maskPlaceholder == "***MASKED***"
      ensures this.oracle == oracle && pathDenied == denied
      ensures this.sensitiveFile == sensitiveFile && this.relative == relative
    {
      this.gitignoreRules, this.aiignoreRules, this.strict := git, ai, strict;
      this.sensitivePatterns, this.vulgarPatterns, this.maskPlaceholder := sensitive, vulgar, PLACEHOLDER;
      this.oracle, this.pathDenied, this.sensitiveFile, this.relative := oracle, denied, sensitiveFile, relative;
    }

    method SetStrictMode(enabled: bool)
      modifies this`strict
      ensures strict == enabled
    {
      strict := enabled;
    }

    /** The two loops leave the verdict of the last rule that matches, over both files. */
    method IsIgnored(relPath: string, isDir: bool) returns (ignored: bool)
      ensures ignored <==> Ignored(gitignoreRules + aiignoreRules, relPath, isDir, oracle)
    {
      ignored := false;
      ghost var seen: seq<IgnoreRule> := [];
      for i := 0 to |gitignoreRules|
        invariant seen == gitignoreRules[..i]
        invariant ignored <==> Ignored(seen, relPath, isDir, oracle)
      {
        IgnoredStep(seen, gitignoreRules[i], relPath, isDir, oracle);
        seen := seen + [gitignoreRules[i]];
        var m := MatchesPath(gitignoreRules[i], relPath, isDir, oracle);
        if m {
          ignored := !gitignoreRules[i].negate;
        }
      }
      for i := 0 to |aiignoreRules|
        invariant seen == gitignoreRules + aiignoreRules[..i]
        invariant ignored <==> Ignored(seen, relPath, isDir, oracle)
      {
        IgnoredStep(seen, aiignoreRules[i], relPath, isDir, oracle);
        seen := seen + [aiignoreRules[i]];
        var m := MatchesPath(aiignoreRules[i], relPath, isDir, oracle);
        if m {
          ignored := !aiignoreRules[i].negate;
        }
      }
      assert seen == gitignoreRules + aiignoreRules;
    }

    method ContainsVulgarContent(text: string) returns (found: bool, findings: seq<string>)
      ensures found <==> |text| <= LONGEST_TEXT && AnyHit(vulgarPatterns, text)
      ensures findings == if |text| > LONGEST_TEXT then [] else Messages(vulgarPatterns, text, VulgarMessage)
    {
      if |text| > LONGEST_TEXT {
        return false, [];
      }
      found, findings := Scan(vulgarPatterns, text, VulgarMessage);
    }

    method DetectSensitiveContent(text: string) returns (found: bool, findings: seq<string>)
      ensures found <==> |text| <= LONGEST_TEXT && AnyHit(sensitivePatterns, text)
      ensures findings == if |text| > LONGEST_TEXT then [] else Messages(sensitivePatterns, text, SensitiveMessage)
    {
      if |text| > LONGEST_TEXT {
        return false, [];
      }
      found, findings := Scan(sensitivePatterns, text, SensitiveMessage);
    }

    /** The texts that are never shown. */
    ghost predicate Blocks(text: string)
      reads this`strict
    {
      Examined(text) && (AnyHit(vulgarPatterns, text) || (strict && AnyHit(sensitivePatterns, text)))
    }

    /** The texts that are shown with something masked. */
    ghost predicate Masks(text: string)
      reads this`strict
    {
      Examined(text) && !AnyHit(vulgarPatterns, text) && !strict &&
      LongHit(sensitivePatterns, text, |sensitivePatterns|)
    }

    /** What is shown of a text, if anything. */
    ghost function Shown(text: string): Option<string>
      requires Valid()
      reads this`strict
    {
      if Blocks(text) then None
      else if Masks(text) then Some(MaskedText(sensitivePatterns, maskPlaceholder, text))
      else Some(text)
    }

    /** The masking step, for a text that is examined. */
    method Mask(text: string) returns (masked: string, wasMasked: bool, findings: seq<string>, ghost h: History)
      requires Valid() && Examined(text)
      ensures Explains(h, sensitivePatterns, maskPlaceholder, text, |sensitivePatterns|)
      ensures masked == MaskedText(sensitivePatterns, maskPlaceholder, text)
      ensures wasMasked <==> LongHit(sensitivePatterns, text, |sensitivePatterns|)
      ensures findings == Findings(sensitivePatterns, h.passes)
    {
      var n := |sensitivePatterns|;
      masked, wasMasked, findings, h := MaskSensitiveContent(sensitivePatterns, maskPlaceholder, text);
      MaskedIffLongHit(h, sensitivePatterns, maskPlaceholder, text, n);
      CellsShowMaskedText(h, sensitivePatterns, maskPlaceholder, text, n, n);
      assert sensitivePatterns[..n] == sensitivePatterns;
    }

    /** What becomes of a text is settled by the matches in the text as given: vulgar or, in strict mode,
        sensitive matches block it; otherwise a long sensitive match masks it. Texts over the
        limit and texts with only short matches pass unchanged. */
    method ProcessContent(text: string) returns (r: Processed, ghost h: History)
      requires Valid()
      ensures r.action == Block <==> Blocks(text)
      ensures r.action == Masked <==> Masks(text)
      ensures r.action == Allow ==> r.text == text && r.reasons == [] && r.findings == []
      ensures r.action == Block ==> r.text == ""
      ensures r.action == Block && AnyHit(vulgarPatterns, text) ==>
                r.reasons == r.findings == Messages(vulgarPatterns, text, VulgarMessage)
      ensures r.action == Block && !AnyHit(vulgarPatterns, text) ==>
                r.reasons == [STRICT_REASON] && r.findings == Messages(sensitivePatterns, text, SensitiveMessage)
      ensures r.action == Masked ==> r.reasons == [MASKED_REASON]
      ensures r.action == Masked ==>
              Explains(h, sensitivePatterns, maskPlaceholder, text, |sensitivePatterns|) &&
              r.text == MaskedText(sensitivePatterns, maskPlaceholder, text) &&
              r.findings == Findings(sensitivePatterns, h.passes)
    {
      h := History([], []);
      r := Processed(Allow, text, [], []);
      if text == "" {
        return;
      }
      var vulgar, vulgarFindings := ContainsVulgarContent(text);
      if vulgar {
        r := Processed(Block, "", vulgarFindings, vulgarFindings);
        return;
      }
      var sensitive, findings := DetectSensitiveContent(text);
      if !sensitive {
        assert forall k :: 0 <= k < |sensitivePatterns| ==> Examined(text) ==> !Hit(sensitivePatterns[k], text);
        return;
      }
      if strict {
        r := Processed(Block, "", [STRICT_REASON], findings);
      } else {
        var masked, wasMasked, maskFindings;
        masked, wasMasked, maskFindings, h := Mask(text);
        if wasMasked {
          r := Processed(Masked, masked, [MASKED_REASON], maskFindings);
        }
      }
    }

    /** The path the ignore rules are asked about: the one given, or else the one below the project root. */
    function Asked(filePath: string, relPath: Option<string>): Option<string> {
      if relPath.Some? && relPath.value != "" then relPath else relative(filePath)
    }

    ghost predicate IgnoredFile(rel: Option<string>)
      reads this
    {
      rel.Some? && rel.value != "" && Ignored(gitignoreRules + aiignoreRules, rel.value, false, oracle)
    }

    ghost function ContentReasons(content: Option<string>): seq<string>
      reads this`strict
    {
      if content.None? then []
      else if Blocks(content.value) then
        if AnyHit(vulgarPatterns, content.value) then Messages(vulgarPatterns, content.value, VulgarMessage)
        else [STRICT_REASON]
      else if Masks(content.value) then [MASKED_REASON]
      else []
    }

    ghost function NameReasons(filePath: string, rel: Option<string>): seq<string>
      reads this
    {
      (if sensitiveFile(filePath).Some? then [OrElse(sensitiveFile(filePath).value, "Sensitive file")] else []) +
      (if IgnoredFile(rel) then [IGNORED_REASON + rel.value] else [])
    }

    /** Steps 2 and 3 of the file check, which look at the name only. */
    method CheckName(filePath: string, rel: Option<string>) returns (reasons: seq<string>, sensitive: bool, ignored: bool)
      ensures reasons == NameReasons(filePath, rel)
      ensures sensitive == sensitiveFile(filePath).Some? && ignored == IgnoredFile(rel)
    {
      reasons, sensitive, ignored := [], false, false;
      match sensitiveFile(filePath) {
        case Some(reason) =>
          sensitive, reasons := true, [if reason != "" then reason else "Sensitive file"];
        case None =>
      }
      if rel.Some? && rel.value != "" {
        ignored := IsIgnored(rel.value, false);
        if ignored {
          reasons := reasons + ["Ignored by .gitignore/.aiignore: " + rel.value];
        }
      }
    }

    /** A file is allowed iff its path is, it is not a sensitive file, no rule ignores it and its content
        is not blocked; ignore rules are asked about it as a file, so directory rules never apply here. A
        denied path ends the check; otherwise every check that fails gives its reason. */
    method CheckFile(filePath: string, content: Option<string>, relPath: Option<string>)
      returns (r: Verdict, ghost h: History)
      requires Valid()
      ensures r.allowed <==> pathDenied(filePath).None? && sensitiveFile(filePath).None? &&
                             !IgnoredFile(Asked(filePath, relPath)) && r.contentAction != Block
      ensures r.contentAction == Block <==>
              pathDenied(filePath).None? && content.Some? && Blocks(content.value)
      ensures r.contentAction == Masked <==>
              pathDenied(filePath).None? && content.Some? && Masks(content.value)
      ensures r.maskedContent == if r.contentAction == Masked
                                 then Some(MaskedText(sensitivePatterns, maskPlaceholder, content.value)) else None
      ensures pathDenied(filePath).Some? ==>
              r.reasons == [OrElse(pathDenied(filePath).value, "Path not allowed")] && r.details == Details(false, false, [])
      ensures pathDenied(filePath).None? ==>
              r.reasons == NameReasons(filePath, Asked(filePath, relPath)) + ContentReasons(content) &&
              r.details.sensitiveFile == sensitiveFile(filePath).Some? &&
              r.details.ignored == IgnoredFile(Asked(filePath, relPath))
      ensures r.contentAction == Allow ==> r.details.content == []
      ensures r.contentAction == Block ==>
              r.details.content == if AnyHit(vulgarPatterns, content.value)
                                   then Messages(vulgarPatterns, content.value, VulgarMessage)
                                   else Messages(sensitivePatterns, content.value, SensitiveMessage)
      ensures r.contentAction == Masked ==>
              Explains(h, sensitivePatterns, maskPlaceholder, content.value, |sensitivePatterns|) &&
              r.details.content == Findings(sensitivePatterns, h.passes)
    {
      r, h := Verdict(true, [], Details(false, false, []), Allow, None), History([], []);
      match pathDenied(filePath) {
        case Some(reason) =>
          r := r.(allowed := false, reasons := [if reason != "" then reason else "Path not allowed"]);
          return;
        case None =>
      }
      var reasons, sensitive, ignored := CheckName(filePath, Asked(filePath, relPath));
      r := r.(allowed := !sensitive && !ignored, reasons := reasons, details := Details(sensitive, ignored, []));
      if content.Some? {
        var processed;
        processed, h := ProcessContent(content.value);
        if processed.action == Block {
          r := r.(allowed := false, reasons := r.reasons + processed.reasons,
                  details := r.details.(content := processed.findings), contentAction := Block);
        } else if processed.action == Masked {
          r := r.(reasons := r.reasons + processed.reasons, details := r.details.(content := processed.findings),
                  contentAction := Masked, maskedContent := Some(processed.text));
        }
      }
    }
  }

  function OrElse(reason: string, otherwise: string): string {
    if reason != "" then reason else otherwise
  }

  /** Which texts are not shown, and which are shown masked, in figures: a text of 1 to 500000 characters is blocked
      for any vulgar match or, in strict mode, for any sensitive one; otherwise a sensitive match of at least six
      characters has it masked. */
  lemma BlocksAndMasksExactly(filter: SecurityFilter, text: string)
    ensures filter.Blocks(text) <==>
            1 <= |text| <= 500000 &&
            ((exists k :: 0 <= k < |filter.vulgarPatterns| && SpansOf(filter.vulgarPatterns[k], text) != []) ||
             (filter.strict &&
              exists k :: 0 <= k < |filter.sensitivePatterns| && SpansOf(filter.sensitivePatterns[k], text) != []))
    ensures filter.Masks(text) <==>
            1 <= |text| <= 500000 && !filter.Blocks(text) && !filter.strict &&
            exists k, span :: 0 <= k < |filter.sensitivePatterns| &&
                              span in SpansOf(filter.sensitivePatterns[k], text) && span.end - span.start >= 6
  {
    assert AnyHit(filter.vulgarPatterns, text) <==>
           exists k :: 0 <= k < |filter.vulgarPatterns| && SpansOf(filter.vulgarPatterns[k], text) != [];
    assert AnyHit(filter.sensitivePatterns, text) <==>
           exists k :: 0 <= k < |filter.sensitivePatterns| && SpansOf(filter.sensitivePatterns[k], text) != [];
    LongHitIff(filter.sensitivePatterns, text);
  }

  lemma LongHitIff(patterns: seq<Pattern>, text: string)
    ensures LongHit(patterns, text, |patterns|) <==>
            exists k, span :: 0 <= k < |patterns| && span in SpansOf(patterns[k], text) && span.end - span.start >= 6
  {
    if LongHit(patterns, text, |patterns|) {
      var k :| 0 <= k < |patterns| && AnyLong(SpansOf(patterns[k], text));
      var span :| span in SpansOf(patterns[k], text) && Long(span);
      assert span in SpansOf(patterns[k], text) && span.end - span.start >= 6;
    }
    forall k, span | 0 <= k < |patterns| && span in SpansOf(patterns[k], text) && span.end - span.start >= 6
      ensures AnyLong(SpansOf(patterns[k], text))
    {
      assert Long(span);
    }
  }

  /** One message for a pattern that hits, none for one that does not; and the messages of two lists of patterns
      are those of the first, then those of the second. */
  lemma {:induction false} MessagesInOrder(a: seq<Pattern>, b: seq<Pattern>, p: Pattern, text: string, message: Pattern -> string)
    ensures Messages([p], text, message) == if SpansOf(p, text) != [] then [message(p)] else []
    ensures Messages(a + b, text, message) == Messages(a, text, message) + Messages(b, text, message)
    decreases |b|
  {
    assert [p][..0] == [];
    if b == [] {
      assert a + b == a;
    } else {
      var last := |b| - 1;
      MessagesInOrder(a, b[..last], p, text, message);
      assert (a + b)[..|a + b| - 1] == a + b[..last] && (a + b)[|a + b| - 1] == b[last];
    }
  }

  function VulgarMessage(p: Pattern): string {
    "Vulgar content detected: " + p.description + " (" + p.name + ")"
  }

  function SensitiveMessage(p: Pattern): string {
    p.description + " (" + p.name + ")"
  }

  lemma AnyHitLast(patterns: seq<Pattern>, text: string)
    requires patterns != []
    ensures AnyHit(patterns, text) <==> AnyHit(patterns[..|patterns| - 1], text) || Hit(patterns[|patterns| - 1], text)
  {
    var last := |patterns| - 1;
    forall k | 0 <= k < last ensures patterns[..last][k] == patterns[k] {}
  }

  lemma {:induction false} MessagesIffHit(patterns: seq<Pattern>, text: string, message: Pattern -> string)
    ensures Messages(patterns, text, message) != [] <==> AnyHit(patterns, text)
  {
    if patterns != [] {
      MessagesIffHit(patterns[..|patterns| - 1], text, message);
      AnyHitLast(patterns, text);
    }
  }

  /** The scanning loop both detectors share; a raising pattern is passed over. */
  method Scan(patterns: seq<Pattern>, text: string, message: Pattern -> string)
    returns (found: bool, findings: seq<string>)
    ensures found <==> AnyHit(patterns, text)
    ensures findings == Messages(patterns, text, message)
  {
    findings := [];
    for i := 0 to |patterns|
      invariant findings == Messages(patterns[..i], text, message)
    {
      assert patterns[..i + 1][..i] == patterns[..i];
      match patterns[i].find(text) {
        case Raised =>
        case Spans(spans) =>
          if spans != [] {
            findings := findings + [message(patterns[i])];
          }
      }
    }
    assert patterns[..|patterns|] == patterns;
    MessagesIffHit(patterns, text, message);
    found := findings != [];
  }
}
