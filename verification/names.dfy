/**
 Safe names for untrusted values: the lenient percent decoder and file-name
 sanitizer of internal/forge/attachments.go, and the storage-segment normalizer of
 internal/paths/urls.go.
 */
module Names {
  import opened Wrappers
  import opened Text

  // ---- percent escapes, section 2.1 of RFC 3986 ----

  predicate IsValidEscape(text: string) {
    |text| >= 3 && text[0] == '%' && IsHexDigit(text[1]) && IsHexDigit(text[2])
  }

  function HexValue(c: char): (v: int)
    requires IsHexDigit(c)
    ensures 0 <= v < 16
  {
    if '0' <= c <= '9' then (c as int) - ('0' as int)
    else if 'a' <= c <= 'f' then (c as int) - ('a' as int) + 10
    else (c as int) - ('A' as int) + 10
  }

  function Decoded(text: string): char
    requires IsValidEscape(text)
  {
    (16 * HexValue(text[1]) + HexValue(text[2])) as char
  }

  /** url.PathUnescape: every percent sign must begin a valid escape. */
  function PathUnescape(s: string): Option<string> {
    if s == "" then Some("")
    else if s[0] != '%' then
      var rest := PathUnescape(s[1..]);
      if rest.None? then None else Some([s[0]] + rest.value)
    else if !IsValidEscape(s) then None
    else
      var rest := PathUnescape(s[3..]);
      if rest.None? then None else Some([Decoded(s)] + rest.value)
  }

  /** The first pass: a percent sign that begins no valid escape becomes an escaped percent sign. */
  function EscapeStray(s: string): string {
    if s == "" then ""
    else if s[0] == '%' && !IsValidEscape(s) then "%25" + EscapeStray(s[1..])
    else [s[0]] + EscapeStray(s[1..])
  }

  /** The reference: one pass that resolves each valid escape and keeps everything else. */
  function DecodeOnce(s: string): string {
    if s == "" then ""
    else if IsValidEscape(s) then [Decoded(s)] + DecodeOnce(s[3..])
    else [s[0]] + DecodeOnce(s[1..])
  }

  /** The first pass leaves a valid escape as it is. */
  lemma KeepsEscape(s: string)
    requires IsValidEscape(s)
    ensures EscapeStray(s) == s[..3] + EscapeStray(s[3..])
  {
    assert s[1..][1..] == s[2..] && s[2..][1..] == s[3..];
    assert EscapeStray(s[2..]) == [s[2]] + EscapeStray(s[3..]);
    assert EscapeStray(s[1..]) == [s[1]] + EscapeStray(s[2..]);
  }

  lemma DecodesEscape(escape: string, rest: string)
    requires |escape| == 3 && IsValidEscape(escape)
    ensures PathUnescape(escape + rest) ==
            if PathUnescape(rest).None? then None else Some([Decoded(escape)] + PathUnescape(rest).value)
  {
    assert (escape + rest)[3..] == rest;
  }

  /** What the second, strict pass makes of the first pass's text: it never fails, and gives the reference. */
  lemma {:induction false} StrictPassSucceeds(s: string)
    ensures PathUnescape(EscapeStray(s)) == Some(DecodeOnce(s))
    decreases |s|
  {
    if s == "" {
    } else if IsValidEscape(s) {
      KeepsEscape(s);
      StrictPassSucceeds(s[3..]);
      DecodesEscape(s[..3], EscapeStray(s[3..]));
    } else {
      StrictPassSucceeds(s[1..]);
      if s[0] == '%' {
        DecodesEscape("%25", EscapeStray(s[1..]));
      } else {
        assert EscapeStray(s)[1..] == EscapeStray(s[1..]);
      }
    }
  }

  /** Text without a valid escape is kept, stray percent signs and all. */
  lemma {:induction false} NothingToDecode(s: string)
    requires forall i :: 0 <= i < |s| ==> !IsValidEscape(s[i..])
    ensures DecodeOnce(s) == s
  {
    if s != "" {
      assert s[0..] == s;
      forall i | 0 <= i < |s[1..]| ensures !IsValidEscape(s[1..][i..]) {
        assert s[1..][i..] == s[i + 1..];
      }
      hide IsValidEscape;
      NothingToDecode(s[1..]);
      assert s == [s[0]] + s[1..];
    }
  }

  /**
   What the first pass has written once it is past the first n characters; whether one is
   escaped depends on those after it.
   */
  function EscapedPrefix(s: string, n: nat): string
    requires n <= |s|
  {
    if n == 0 then ""
    else EscapedPrefix(s, n - 1) + (if s[n - 1] == '%' && !IsValidEscape(s[n - 1..]) then "%25" else [s[n - 1]])
  }

  lemma {:induction false} EscapedPrefixIsFirstPass(s: string, n: nat)
    requires n <= |s|
    ensures EscapedPrefix(s, n) + EscapeStray(s[n..]) == EscapeStray(s)
  {
    if n > 0 {
      EscapedPrefixIsFirstPass(s, n - 1);
      assert s[n - 1..][1..] == s[n..];
    }
  }

  /**
   Decodes every valid escape and keeps malformed ones literally. The strict pass
   cannot fail here, so the program's branch for its failure is never taken.
   */
  method DecodeLenient(value: string) returns (decoded: string)
    ensures decoded == DecodeOnce(value)
  {
    if '%' !in value {
      assert forall i :: 0 <= i < |value| ==> value[i..][0] in value;
      NothingToDecode(value);
      return value;
    }
    var builder := "";
    for index := 0 to |value|
      invariant builder == EscapedPrefix(value, index)
    {
      if value[index] == '%' && !IsValidEscape(value[index..]) {
        builder := builder + "%25";
        continue;
      }
      builder := builder + [value[index]];
    }
    EscapedPrefixIsFirstPass(value, |value|);
    assert builder == EscapeStray(value);
    StrictPassSucceeds(value);
    var strict := PathUnescape(builder);
    assert strict.Some?;
    return strict.value;
  }

  /** Where the strict decoder succeeds at all, the lenient one agrees with it. */
  lemma {:induction false} LenientExtendsStrict(s: string)
    requires PathUnescape(s).Some?
    ensures DecodeOnce(s) == PathUnescape(s).value
    decreases |s|
  {
    if s != "" {
      LenientExtendsStrict(if s[0] == '%' then s[3..] else s[1..]);
    }
  }

  // ---- the decoder against an encoder ----

  const UPPER_DIGITS: string := "0123456789ABCDEF"
  const LOWER_DIGITS: string := "0123456789abcdef"

  predicate IsByte(c: char) { (c as int) < 256 }

  /** A byte as a percent sign and two hex digits, with the letters of either case. */
  function Escape(c: char, digits: string): string
    requires IsByte(c) && |digits| == 16
  {
    "%" + [digits[(c as int) / 16], digits[(c as int) % 16]]
  }

  function Encode(s: string, digits: string): string
    requires |digits| == 16 && forall i :: 0 <= i < |s| ==> IsByte(s[i])
  {
    if s == "" then "" else Escape(s[0], digits) + Encode(s[1..], digits)
  }

  lemma DigitsCount(digits: string, d: nat)
    requires digits in {UPPER_DIGITS, LOWER_DIGITS} && d < 16
    ensures |digits| == 16 && IsHexDigit(digits[d]) && HexValue(digits[d]) == d
  {
  }

  lemma EscapeIsValid(c: char, digits: string)
    requires digits in {UPPER_DIGITS, LOWER_DIGITS} && IsByte(c)
    ensures |digits| == 16 && IsValidEscape(Escape(c, digits)) && Decoded(Escape(c, digits)) == c
  {
    DigitsCount(digits, (c as int) / 16);
    DigitsCount(digits, (c as int) % 16);
  }

  /** Whatever the bytes, percent-encoded text decodes to them, in either case of the hex digits. */
  lemma {:induction false} DecodesTheEncoded(s: string, digits: string)
    requires digits in {UPPER_DIGITS, LOWER_DIGITS} && |digits| == 16
    requires forall i :: 0 <= i < |s| ==> IsByte(s[i])
    ensures DecodeOnce(Encode(s, digits)) == s
  {
    if s != "" {
      hide IsValidEscape, Decoded, Escape;
      EscapeIsValid(s[0], digits);
      DecodesTheEncoded(s[1..], digits);
      DecodesFirst(Escape(s[0], digits), Encode(s[1..], digits));
    }
  }

  lemma DecodesFirst(escape: string, rest: string)
    requires |escape| == 3 && IsValidEscape(escape)
    ensures DecodeOnce(escape + rest) == [Decoded(escape)] + DecodeOnce(rest)
  {
    assert (escape + rest)[3..] == rest;
  }

  // ---- storage segments ----

  predicate IsSafe(c: char) {
    'A' <= c <= 'Z' || 'a' <= c <= 'z' || '0' <= c <= '9' || c == '.' || c == '_' || c == '-'
  }

  predicate AllSafe(s: string) { forall c :: c in s ==> IsSafe(c) }

  predicate IsDashOrDot(c: char) { c == '-' || c == '.' }

  /** Each run of unsafe characters becomes one dash. */
  function ReplaceUnsafeRuns(s: string): (r: string)
    ensures AllSafe(r)
  {
    if s == "" then ""
    else if IsSafe(s[0]) then [s[0]] + ReplaceUnsafeRuns(s[1..])
    else if |s| > 1 && !IsSafe(s[1]) then ReplaceUnsafeRuns(s[1..])
    else "-" + ReplaceUnsafeRuns(s[1..])
  }

  function NormalizeStorageSegment(value: string, fallback: string, lowercase: bool): string {
    var trimmed := TrimSpace(value);
    var candidate := if lowercase then ToLower(trimmed) else trimmed;
    var sanitized := Trim(ReplaceUnsafeRuns(candidate), IsDashOrDot);
    if TrimSpace(sanitized) == "" then fallback else sanitized
  }

  /** A single safe key segment: non-empty, safe characters only, and no dash or dot at either end. */
  predicate IsSegment(s: string) {
    s != "" && AllSafe(s) && !IsDashOrDot(s[0]) && !IsDashOrDot(s[|s| - 1])
  }

  /** Whatever the value, the result is the fallback or a safe segment: no slash, no dot segment, nothing blank. */
  lemma NormalizedIsSegment(value: string, fallback: string, lowercase: bool)
    requires IsSegment(fallback)
    ensures IsSegment(NormalizeStorageSegment(value, fallback, lowercase))
  {
  }

  lemma {:induction false} LeadingRun(run: string, rest: string)
    requires run != "" && (forall i :: 0 <= i < |run| ==> !IsSafe(run[i])) && (rest == "" || IsSafe(rest[0]))
    ensures ReplaceUnsafeRuns(run + rest) == "-" + ReplaceUnsafeRuns(rest)
  {
    assert (run + rest)[1..] == run[1..] + rest;
    if |run| > 1 {
      LeadingRun(run[1..], rest);
    } else {
      assert run[1..] + rest == rest;
    }
  }

  /** A run of characters that are not safe becomes one dash, wherever it stands. */
  lemma {:induction false} RunBecomesDash(before: string, run: string, rest: string)
    requires forall i :: 0 <= i < |before| ==> IsSafe(before[i])
    requires run != "" && (forall i :: 0 <= i < |run| ==> !IsSafe(run[i])) && (rest == "" || IsSafe(rest[0]))
    ensures ReplaceUnsafeRuns(before + (run + rest)) == before + ("-" + ReplaceUnsafeRuns(rest))
  {
    if before == "" {
      assert before + (run + rest) == run + rest;
      LeadingRun(run, rest);
    } else {
      var tail := before[1..] + (run + rest);
      RunBecomesDash(before[1..], run, rest);
      assert before + (run + rest) == [before[0]] + tail;
      SafeFirst(before[0], tail);
    }
  }

  lemma SafeFirst(c: char, tail: string)
    requires IsSafe(c)
    ensures ReplaceUnsafeRuns([c] + tail) == [c] + ReplaceUnsafeRuns(tail)
  {
    assert ([c] + tail)[1..] == tail;
  }

  /** The letters, digits and underscores of a value, in order. */
  function Kept(s: string): string {
    if s == "" then ""
    else (if IsSafe(s[0]) && !IsDashOrDot(s[0]) then [s[0]] else "") + Kept(s[1..])
  }

  lemma {:induction false} KeptConcat(a: string, b: string)
    ensures Kept(a + b) == Kept(a) + Kept(b)
  {
    if a == "" {
      assert a + b == b;
    } else {
      assert (a + b)[1..] == a[1..] + b;
      KeptConcat(a[1..], b);
    }
  }

  lemma {:induction false} NothingKept(s: string)
    requires forall i :: 0 <= i < |s| ==> !IsSafe(s[i]) || IsDashOrDot(s[i])
    ensures Kept(s) == ""
  {
    if s != "" {
      NothingKept(s[1..]);
    }
  }

  lemma {:induction false} RunsKeep(s: string)
    ensures Kept(ReplaceUnsafeRuns(s)) == Kept(s)
  {
    if s != "" {
      var rest := ReplaceUnsafeRuns(s[1..]);
      RunsKeep(s[1..]);
      assert IsSafe(s[0]) ==> ([s[0]] + rest)[1..] == rest;
      assert ("-" + rest)[1..] == rest;
    }
  }

  lemma TrimDecomposes(s: string, drop: char -> bool) returns (left: string, right: string)
    ensures s == left + Trim(s, drop) + right
    ensures (forall i :: 0 <= i < |left| ==> drop(left[i])) && forall i :: 0 <= i < |right| ==> drop(right[i])
  {
    hide TrimLeft, TrimRight;
    var tail, r := TrimLeft(s, drop), Trim(s, drop);
    left, right := s[..|s| - |tail|], tail[|r|..];
    hide Trim;
    assert tail == r + right;
    assert s == left + tail;
    assert left + (r + right) == left + r + right;
  }

  /** Trimming what is not kept anyway keeps the rest. */
  lemma TrimKeepsKept(s: string, drop: char -> bool)
    requires forall c :: drop(c) ==> !IsSafe(c) || IsDashOrDot(c)
    ensures Kept(Trim(s, drop)) == Kept(s)
    ensures AllSafe(s) ==> AllSafe(Trim(s, drop))
  {
    hide Trim, IsSafe, IsDashOrDot;
    var left, right := TrimDecomposes(s, drop);
    NothingKept(left);
    NothingKept(right);
    KeptConcat(left + Trim(s, drop), right);
    KeptConcat(left, Trim(s, drop));
    assert forall c :: c in Trim(s, drop) ==> c in s;
  }

  /** The fallback stands in exactly for a value with no letter, digit or underscore; otherwise these are all kept. */
  lemma NormalizedKeeps(value: string, fallback: string, lowercase: bool)
    ensures var kept := Kept(if lowercase then ToLower(TrimSpace(value)) else value);
            var result := NormalizeStorageSegment(value, fallback, lowercase);
            if kept == "" then result == fallback else Kept(result) == kept
  {
    hide ReplaceUnsafeRuns, Trim;
    var trimmed := TrimSpace(value);
    var candidate := if lowercase then ToLower(trimmed) else trimmed;
    var replaced := ReplaceUnsafeRuns(candidate);
    var sanitized := Trim(replaced, IsDashOrDot);
    TrimKeepsKept(value, IsSpace);
    RunsKeep(candidate);
    TrimKeepsKept(replaced, IsDashOrDot);
    TrimKeepsKept(sanitized, IsSpace);
    if Kept(candidate) == "" {
      NothingLeft(replaced);
    }
  }

  /** Trimmed of dashes and dots, safe characters that are nothing else leave nothing. */
  lemma NothingLeft(s: string)
    requires AllSafe(s) && Kept(s) == ""
    ensures Trim(s, IsDashOrDot) == ""
  {
    TrimKeepsKept(s, IsDashOrDot);
    var r := Trim(s, IsDashOrDot);
    if r != "" {
      FirstIsKept(r);
    }
  }

  lemma FirstIsKept(s: string)
    requires s != "" && AllSafe(s) && !IsDashOrDot(s[0])
    ensures Kept(s) != ""
  {
    assert s[0] in s;
  }

  /** A value that is a safe segment already is left as it is. */
  lemma SegmentIsUnchanged(value: string, fallback: string)
    requires IsSegment(value)
    ensures NormalizeStorageSegment(value, fallback, false) == value
  {
    hide ReplaceUnsafeRuns, Trim;
    SegmentIsNotSpace(value);
    SafeIsUnchanged(value);
    TrimStable(value, IsDashOrDot);
  }

  lemma SegmentHasNoSlash(s: string)
    requires IsSegment(s)
    ensures '/' !in s && s != "." && s != ".."
  {
  }

  lemma {:induction false} SafeIsUnchanged(s: string)
    requires AllSafe(s)
    ensures ReplaceUnsafeRuns(s) == s
  {
    if s != "" {
      assert s[0] in s;
      assert AllSafe(s[1..]) by { assert forall c :: c in s[1..] ==> c in s; }
      SafeIsUnchanged(s[1..]);
    }
  }

  lemma SegmentIsNotSpace(s: string)
    requires IsSegment(s)
    ensures TrimSpace(s) == s
  {
    assert s[0] in s && s[|s| - 1] in s;
    TrimStable(s, IsSpace);
  }

  /** Normalizing a normalized value changes nothing. */
  lemma NormalizeIsIdempotent(value: string, fallback: string)
    requires IsSegment(fallback)
    ensures var once := NormalizeStorageSegment(value, fallback, false);
            NormalizeStorageSegment(once, fallback, false) == once
  {
    hide ReplaceUnsafeRuns, Trim;
    var once := NormalizeStorageSegment(value, fallback, false);
    NormalizedIsSegment(value, fallback, false);
    SegmentIsNotSpace(once);
    SafeIsUnchanged(once);
    TrimStable(once, IsDashOrDot);
  }

  /** The last position of a slash or backslash, or -1. */
  function LastSeparator(s: string): (i: int)
    ensures -1 <= i < |s|
  {
    var slash, backslash := LastIndex(s, '/'), LastIndex(s, '\\');
    if slash > backslash then slash else backslash
  }

  function SanitizeFileName(fileName: string): string {
    var candidate := TrimSpace(fileName);
    var base := candidate[LastSeparator(candidate) + 1..];
    var unescaped := PathUnescape(base);
    NormalizeStorageSegment(if unescaped.Some? then unescaped.value else base, "file", false)
  }

  function BuildStorageFileName(shortHash: string, rawName: string): string {
    shortHash + "-" + SanitizeFileName(rawName)
  }

  predicate IsShortHash(s: string) {
    |s| == 8 && forall i :: 0 <= i < 8 ==> IsHexDigit(s[i])
  }

  function ResolveReleaseSlug(tag: string, shortHash: string): string {
    var slug := SanitizeFileName(tag);
    if slug == "index" then slug + "-" + shortHash else slug
  }

  lemma SanitizedIsSegment(fileName: string)
    ensures IsSegment(SanitizeFileName(fileName))
  {
    hide NormalizeStorageSegment, PathUnescape, TrimSpace, LastSeparator;
    assert IsSegment("file");
    var candidate := TrimSpace(fileName);
    var base := candidate[LastSeparator(candidate) + 1..];
    var unescaped := PathUnescape(base);
    NormalizedIsSegment(if unescaped.Some? then unescaped.value else base, "file", false);
  }

  /** Trimming space off text that ends in a separator and a name leaves some folder before them. */
  lemma TrimmedFolder(folder: string, separator: char, name: string) returns (rest: string)
    requires !IsSpace(separator) && name != "" && !IsSpace(name[|name| - 1])
    ensures TrimSpace(folder + [separator] + name) == rest + [separator] + name
  {
    var s := folder + [separator] + name;
    hide TrimLeft;
    var tail := TrimLeft(s, IsSpace);
    var cut := |s| - |tail|;
    assert s[|folder|] == separator;
    assert cut <= |folder|;
    rest := folder[cut..];
    assert tail == rest + [separator] + name;
    assert tail[|tail| - 1] == name[|name| - 1];
  }

  lemma NameHasNoSeparator(name: string)
    requires IsSegment(name)
    ensures '/' !in name && '\\' !in name && '%' !in name
  {
  }

  lemma LastSeparatorIs(folder: string, separator: char, name: string)
    requires separator in {'/', '\\'} && '/' !in name && '\\' !in name
    ensures LastSeparator(folder + [separator] + name) == |folder|
    ensures LastSeparator(name) == -1
  {
    var s := folder + [separator] + name;
    hide LastIndex;
    assert s[|folder|] == separator;
    assert forall i :: |folder| < i < |s| ==> s[i] in name;
  }

  lemma {:induction false} NothingToUnescape(s: string)
    requires '%' !in s
    ensures PathUnescape(s) == Some(s)
  {
    if s != "" {
      NothingToUnescape(s[1..]);
      assert s[0] in s && s == [s[0]] + s[1..];
    }
  }

  /** A safe name is kept, and of a path its last component, whichever slash it is written with. */
  lemma SanitizeKeepsName(folder: string, separator: char, name: string)
    requires IsSegment(name) && separator in {'/', '\\'}
    ensures SanitizeFileName(name) == name
    ensures SanitizeFileName(folder + [separator] + name) == name
  {
    hide NormalizeStorageSegment, PathUnescape, TrimSpace, LastSeparator;
    NameHasNoSeparator(name);
    SegmentIsNotSpace(name);
    NothingToUnescape(name);
    SegmentIsUnchanged(name, "file");
    LastSeparatorIs("", separator, name);
    NotSpaceAtEnd(name);
    var rest := TrimmedFolder(folder, separator, name);
    LastSeparatorIs(rest, separator, name);
    assert (rest + [separator] + name)[|rest| + 1..] == name;
  }

  lemma NotSpaceAtEnd(name: string)
    requires IsSegment(name)
    ensures !IsSpace(name[|name| - 1])
  {
    assert name[|name| - 1] in name;
  }

  /** A release's slug is a usable document name: its sanitized tag, unless that is the manifest's. */
  lemma ReleaseSlugIsUsable(tag: string, shortHash: string)
    requires IsShortHash(shortHash)
    ensures var slug := ResolveReleaseSlug(tag, shortHash);
            && slug != "" && '/' !in slug && slug != "index"
            && (slug == SanitizeFileName(tag) || (SanitizeFileName(tag) == "index" && slug == "index-" + shortHash))
  {
    hide SanitizeFileName;
    SanitizedIsSegment(tag);
    SegmentHasNoSlash(SanitizeFileName(tag));
    var slug := ResolveReleaseSlug(tag, shortHash);
    if SanitizeFileName(tag) == "index" {
      assert "index" + "-" == "index-";
      assert |slug| == 14;
      forall c | c in slug ensures c != '/' {
        assert c in "index" || c == '-' || c in shortHash;
      }
    }
  }
}
