/**
 * The Obsidian-style rewrites of src/lib/markdown.ts and its audio-file
 * test. Both rewrites are a global `replace` of one regular expression of
 * the same shape: an opening delimiter, one or more characters other
 * than a stop character, and the stop character twice. `Pass` models
 * such a replace, scanning left to right and resuming after each match.
 */
module Markdown {
  import opened Wrappers
  import Text

  /**
   * The regular expression matches at the start of `s` with a name of
   * length `n`: `open`, then `n >= 1` characters other than `stop`, then
   * `stop` twice.
   */
  ghost predicate IsMatch(s: string, open: string, stop: char, n: int)
  {
    && 1 <= n
    && |open| + n + 2 <= |s|
    && s[..|open|] == open
    && (forall j :: |open| <= j < |open| + n ==> s[j] != stop)
    && s[|open| + n] == stop && s[|open| + n + 1] == stop
  }

  /** Whether the expression matches at the start of `s`, and with which name length: there is at most one. */
  function MatchAt(s: string, open: string, stop: char): (r: Option<nat>)
    ensures r.Some? ==> IsMatch(s, open, stop, r.value)
    ensures forall n :: IsMatch(s, open, stop, n) ==> r.Some? && r.value == n
  {
    if !Text.StartsWith(s, open) then None
    else
      var n := Text.RunWithout(s[|open|..], stop);
      assert forall j :: |open| <= j < |s| ==> s[j] == s[|open|..][j - |open|];
      if 1 <= n && |open| + n + 2 <= |s| && s[|open| + n + 1] == stop then
        Some(n)
      else
        None
  }

  /**
   * `s.replace(/open([^stop]+)stopstop/g, f)`: every match, taken left to
   * right and never overlapping the one before, is replaced by `f` of its
   * name; every other character is copied.
   */
  function Pass(s: string, open: string, stop: char, f: string -> string): string
    decreases |s|
  {
    if |s| == 0 then []
    else
      match MatchAt(s, open, stop)
      case Some(n) => f(s[|open|..|open| + n]) + Pass(s[|open| + n + 2..], open, stop, f)
      case None => [s[0]] + Pass(s[1..], open, stop, f)
  }

  /** No match begins at any of the first `k` positions of `s`. */
  ghost predicate NoMatchBefore(s: string, open: string, stop: char, k: int)
  {
    forall i, n :: 0 <= i < k && i <= |s| ==> !IsMatch(s[i..], open, stop, n)
  }

  /** Where no match begins at the start, the scan copies the first character. */
  lemma {:induction false} PassCopiesHead(s: string, open: string, stop: char, f: string -> string)
    requires |s| > 0 && NoMatchBefore(s, open, stop, 1)
    ensures Pass(s, open, stop, f) == [s[0]] + Pass(s[1..], open, stop, f)
  {
    assert s[0..] == s;
    assert MatchAt(s, open, stop).None?;
  }

  /** Dropping the first character keeps the remaining positions free of matches. */
  lemma {:induction false} NoMatchBeforeTail(s: string, open: string, stop: char, k: int)
    requires |s| > 0 && NoMatchBefore(s, open, stop, k)
    ensures NoMatchBefore(s[1..], open, stop, k - 1)
  {
    forall i, n | 0 <= i < k - 1 && i <= |s[1..]|
      ensures !IsMatch(s[1..][i..], open, stop, n)
    {
      assert s[1..][i..] == s[i + 1..];
    }
  }

  /** Characters before the first match are copied as they are. */
  lemma {:induction false} PassCopiesPlainPrefix(p: string, t: string, open: string, stop: char, f: string -> string)
    requires NoMatchBefore(p + t, open, stop, |p|)
    ensures Pass(p + t, open, stop, f) == p + Pass(t, open, stop, f)
  {
    if |p| > 0 {
      var s := p + t;
      var whole := Pass(s, open, stop, f);
      var tail := Pass(s[1..], open, stop, f);
      var rest := Pass(t, open, stop, f);
      assert whole == [s[0]] + tail by {
        PassCopiesHead(s, open, stop, f);
      }
      assert tail == p[1..] + rest by {
        NoMatchBeforeTail(s, open, stop, |p|);
        assert s[1..] == p[1..] + t;
        PassCopiesPlainPrefix(p[1..], t, open, stop, f);
      }
      assert p + rest == [s[0]] + (p[1..] + rest) by {
        assert p == [s[0]] + p[1..];
      }
    } else {
      assert p + t == t;
    }
  }

  /** One step of the scan at a match of name length `n`. */
  lemma {:induction false} PassAtMatch(s: string, open: string, stop: char, f: string -> string, n: nat)
    requires MatchAt(s, open, stop) == Some(n)
    ensures |open| + n + 2 <= |s|
    ensures Pass(s, open, stop, f) == f(s[|open|..|open| + n]) + Pass(s[|open| + n + 2..], open, stop, f)
  {
    assert IsMatch(s, open, stop, n);
  }

  /** The expression matches at the start of `open + name + stop stop + rest`, with `name` as its name. */
  lemma {:induction false} MatchesName(name: string, rest: string, open: string, stop: char)
    requires name != [] && stop !in name
    ensures MatchAt(open + name + [stop, stop] + rest, open, stop) == Some(|name|)
  {
    var s := open + name + [stop, stop] + rest;
    var n := |name|;
    assert s[..|open|] == open;
    assert forall j :: |open| <= j < |open| + n ==> s[j] == name[j - |open|];
    assert IsMatch(s, open, stop, n);
  }

  /** A match at the start is replaced by `f` of its name, and the scan resumes after it. */
  lemma {:induction false} PassRewritesMatch(name: string, rest: string, open: string, stop: char, f: string -> string)
    requires name != [] && stop !in name
    ensures Pass(open + name + [stop, stop] + rest, open, stop, f) == f(name) + Pass(rest, open, stop, f)
  {
    var s := open + name + [stop, stop] + rest;
    var n := |name|;
    MatchesName(name, rest, open, stop);
    PassAtMatch(s, open, stop, f, n);
    assert s[|open|..|open| + n] == name;
    assert s[|open| + n + 2..] == rest;
  }

  /** Content in which the expression matches nowhere is returned unchanged. */
  lemma {:induction false} NoMatchUnchanged(s: string, open: string, stop: char, f: string -> string)
    requires NoMatchBefore(s, open, stop, |s|)
    ensures Pass(s, open, stop, f) == s
  {
    assert s + [] == s;
    PassCopiesPlainPrefix(s, [], open, stop, f);
  }

  /** A match needs its opening delimiter, so content without it is left alone. */
  lemma {:induction false} WithoutOpenNoMatch(s: string, open: string, stop: char)
    requires !Text.Contains(s, open)
    ensures NoMatchBefore(s, open, stop, |s|)
  {
    forall i, n | 0 <= i < |s| && i <= |s|
      ensures !IsMatch(s[i..], open, stop, n)
    {
      assert !Text.OccursAt(s, open, i);
      if i + |open| <= |s| {
        assert s[i..][..|open|] == s[i..i + |open|];
      }
    }
  }

  /** `![[name]]` becomes `![name](enc(name))`, with `enc` the URI-component encoder. */
  function Embed(enc: string -> string): string -> string
  {
    name => "![" + name + "](" + enc(name) + ")"
  }

  /** `==text==` becomes `<mark>text</mark>`. */
  function Highlight(): string -> string
  {
    text => "<mark>" + text + "</mark>"
  }

  /** The embed rewrite. */
  function EmbedPass(s: string, enc: string -> string): string
  {
    Pass(s, "![[", ']', Embed(enc))
  }

  /** The highlight rewrite. */
  function HighlightPass(s: string): string
  {
    Pass(s, "==", '=', Highlight())
  }

  /** `preprocessMarkdown`: the embed rewrite first, then the highlight rewrite on its output. */
  function Preprocess(content: string, enc: string -> string): string
  {
    HighlightPass(EmbedPass(content, enc))
  }

  /** Content with no `![[` and no `==` is returned unchanged. */
  lemma {:induction false} PlainContentUnchanged(content: string, enc: string -> string)
    requires !Text.Contains(content, "![[") && !Text.Contains(content, "==")
    ensures Preprocess(content, enc) == content
  {
    WithoutOpenNoMatch(content, "![[", ']');
    NoMatchUnchanged(content, "![[", ']', Embed(enc));
    WithoutOpenNoMatch(content, "==", '=');
    NoMatchUnchanged(content, "==", '=', Highlight());
  }

  /** An embed becomes a markdown image whose target is the encoded name. */
  lemma EmbedRewritten(name: string, rest: string, enc: string -> string)
    requires name != [] && ']' !in name
    ensures EmbedPass("![[" + name + "]]" + rest, enc)
      == "![" + name + "](" + enc(name) + ")" + EmbedPass(rest, enc)
  {
    PassRewritesMatch(name, rest, "![[", ']', Embed(enc));
    assert "![[" + name + "]]" + rest == "![[" + name + [']', ']'] + rest;
  }

  /** A highlight becomes a `mark` element around the same text. */
  lemma HighlightRewritten(text: string, rest: string)
    requires text != [] && '=' !in text
    ensures HighlightPass("==" + text + "==" + rest) == "<mark>" + text + "</mark>" + HighlightPass(rest)
  {
    PassRewritesMatch(text, rest, "==", '=', Highlight());
    assert "==" + text + "==" + rest == "==" + text + ['=', '='] + rest;
  }

  /** `==` with nothing between the delimiters is not a highlight. */
  lemma EmptyHighlightKept()
    ensures HighlightPass("====") == "===="
  {
    var s := "====";
    assert !IsMatch(s, "==", '=', 1) by { assert s[2] == '='; }
    assert s[1..] == "===";
    assert s[2..] == "==";
    assert s[3..] == "=";
    assert MatchAt(s[1..], "==", '=').None? by { assert s[1..][2] == '='; }
    assert MatchAt(s[2..], "==", '=').None?;
    assert MatchAt(s[3..], "==", '=').None?;
    assert s[1..][1..] == s[2..] && s[2..][1..] == s[3..] && s[3..][1..] == [];
  }

  // ---------------------------------------------------------------------
  // Audio files
  // ---------------------------------------------------------------------

  /** The extensions an audio player is shown for. */
  const AudioExtensions: seq<string> := ["mp3", "m4a", "wav", "ogg", "aac", "flac", "webm"]

  /**
   * `filename.split('.').pop()`: the text after the last `.`, or the whole
   * name when it has none.
   */
  function Extension(filename: string): (r: string)
    ensures |r| <= |filename| && r == filename[|filename| - |r|..]
    ensures '.' !in r
    ensures |r| < |filename| ==> filename[|filename| - |r| - 1] == '.'
  {
    if |filename| == 0 then []
    else if filename[|filename| - 1] == '.' then []
    else
      var front := Extension(filename[..|filename| - 1]);
      ExtensionGrows(filename, front);
      front + [filename[|filename| - 1]]
  }

  /** One more character that is not a dot extends the extension of the name before it. */
  lemma {:induction false} ExtensionGrows(filename: string, front: string)
    requires |filename| > 0 && filename[|filename| - 1] != '.'
    requires var init := filename[..|filename| - 1];
      && |front| <= |init| && front == init[|init| - |front|..] && '.' !in front
      && (|front| < |init| ==> init[|init| - |front| - 1] == '.')
    ensures var r := front + [filename[|filename| - 1]];
      && |r| <= |filename| && r == filename[|filename| - |r|..] && '.' !in r
      && (|r| < |filename| ==> filename[|filename| - |r| - 1] == '.')
  {
    var n := |filename| - 1;
    assert filename[..n][n - |front|..] == filename[n - |front|..n];
  }

  /** `isAudioFile`: the lower-cased extension is non-empty and one of the audio extensions. */
  function IsAudioFile(filename: string): (r: bool)
    ensures r ==> '.' !in Text.LowerStr(Extension(filename))
    ensures r <==> Text.LowerStr(Extension(filename)) in AudioExtensions
  {
    var extension := Text.LowerStr(Extension(filename));
    AudioExtensionShape(extension);
    extension != [] && extension in AudioExtensions
  }

  /** Every audio extension is non-empty and has no dot. */
  lemma {:induction false} AudioExtensionShape(e: string)
    ensures e in AudioExtensions ==> e != [] && '.' !in e
  {
    if e in AudioExtensions {
      var k :| 0 <= k < |AudioExtensions| && AudioExtensions[k] == e;
      if k == 0 { assert e == "mp3"; }
      else if k == 1 { assert e == "m4a"; }
      else if k == 2 { assert e == "wav"; }
      else if k == 3 { assert e == "ogg"; }
      else if k == 4 { assert e == "aac"; }
      else if k == 5 { assert e == "flac"; }
      else { assert e == "webm"; }
    }
  }

  /** A name without a dot is its own extension. */
  lemma NoDotWholeName(filename: string)
    requires '.' !in filename
    ensures Extension(filename) == filename
  {
  }

  /** The extension is everything after the last dot. */
  lemma AfterLastDot(filename: string, i: nat)
    requires i < |filename| && filename[i] == '.' && '.' !in filename[i + 1..]
    ensures Extension(filename) == filename[i + 1..]
  {
  }

  /** A name without a dot is audio exactly when, lower-cased, it is one of the audio extensions. */
  lemma {:induction false} AudioWithoutDot(filename: string)
    requires '.' !in filename
    ensures IsAudioFile(filename) <==> Text.LowerStr(filename) in AudioExtensions
  {
    NoDotWholeName(filename);
  }

  /** The empty name, and a name ending in a dot, have an empty extension and are not audio. */
  lemma EmptyExtensionNotAudio(filename: string)
    requires filename == [] || filename[|filename| - 1] == '.'
    ensures !IsAudioFile(filename)
  {
    assert Extension(filename) == [];
  }

  /**
   * Only the text after the last dot is compared, in lower case: the name
   * is audio exactly when that text, lower-cased, is an audio extension.
   */
  lemma {:induction false} AudioByLastDot(filename: string, i: nat)
    requires i < |filename| && filename[i] == '.' && '.' !in filename[i + 1..]
    ensures IsAudioFile(filename) <==> Text.LowerStr(filename[i + 1..]) in AudioExtensions
  {
    AfterLastDot(filename, i);
  }
}
