/**
 Doc-comment synthesis for definitions and struct properties: the description
 (or an ellipsis for the "<nil>" placeholder), preceded by the flag markers
 and the exported name, with "// " put in front of every line.
 */
module Comments {
  import opened Proto

  /** The description the schema reader produces when a member has none. */
  const NilDescription := "<nil>"

  const DeprecatedTag := "(deprecated) "
  const ExperimentalTag := "(experimental) "
  const OptionalTag := "(optional) "

  /**
   The comment text before line prefixing. As in the source, the optional,
   experimental and deprecated markers are prepended one after the other, so
   the deprecated marker ends up outermost (see RawCommentLayout).
   */
  function RawComment(exported: string, description: string, flags: Flags): string
  {
    var text := if description == NilDescription then "..." else description;
    var text := if flags.optional then OptionalTag + text else text;
    var text := if flags.experimental then ExperimentalTag + text else text;
    var text := if flags.deprecated then DeprecatedTag + text else text;
    exported + " " + text
  }

  function Marker(on: bool, tag: string): string
  {
    if on then tag else ""
  }

  /** The markers present, outermost first. */
  function Markers(flags: Flags): string
  {
    Marker(flags.deprecated, DeprecatedTag) + Marker(flags.experimental, ExperimentalTag)
    + Marker(flags.optional, OptionalTag)
  }

  /**
   The text split at every line feed. A text with k line feeds has k + 1
   lines; the last one is empty when the text ends in a line feed.
   */
  function Lines(s: string): (ls: seq<string>)
    ensures |ls| >= 1
  {
    if s == [] then [""]
    else
      var rest := Lines(s[1..]);
      if s[0] == '\n' then [""] + rest else [[s[0]] + rest[0]] + rest[1..]
  }

  /** Lines glued back together with line feeds. */
  function JoinLines(ls: seq<string>): string
    requires |ls| >= 1
  {
    if |ls| == 1 then ls[0] else ls[0] + "\n" + JoinLines(ls[1..])
  }

  /** Every line feed followed by the comment marker. */
  function MarkAfterNewlines(s: string): string
  {
    if s == [] then []
    else if s[0] == '\n' then "\n// " + MarkAfterNewlines(s[1..])
    else [s[0]] + MarkAfterNewlines(s[1..])
  }

  /**
   The effect of replacing every match of the multi-line pattern `^` with
   "// ": the pattern matches at the start of the text and right after every
   line feed, a trailing one included.
   */
  function PrefixLines(s: string): string
  {
    "// " + MarkAfterNewlines(s)
  }

  /** Removes the comment marker that follows each line feed. */
  function UnmarkAfterNewlines(t: string): string
  {
    if t == [] then []
    else if |t| >= 4 && t[..4] == "\n// " then "\n" + UnmarkAfterNewlines(t[4..])
    else [t[0]] + UnmarkAfterNewlines(t[1..])
  }

  /** The inverse of PrefixLines on its image; None when the text does not start with a marker. */
  function Uncomment(t: string): Option<string>
  {
    if |t| >= 3 && t[..3] == "// " then Some(UnmarkAfterNewlines(t[3..])) else None
  }

  /** The full doc comment of a definition or property named `name`. */
  function Comment(naming: Naming, name: string, description: string, flags: Flags): string
  {
    PrefixLines(RawComment(naming.symbol(name), description, flags))
  }

  function DefinitionComment(naming: Naming, d: Definition): string
  {
    Comment(naming, d.name, d.description, d.flags)
  }

  function PropertyComment(naming: Naming, p: Property): string
  {
    Comment(naming, p.name, p.description, p.flags)
  }

  // ---------------------------------------------------------------------------
  // Lemmas

  /** Splitting and joining again gives back the text, and no line holds a line feed. */
  lemma {:induction false} LinesJoin(s: string)
    ensures JoinLines(Lines(s)) == s
    ensures forall i :: 0 <= i < |Lines(s)| ==> '\n' !in Lines(s)[i]
    decreases |s|
  {
    if s != [] {
      LinesJoin(s[1..]);
      var rest := Lines(s[1..]);
      if s[0] == '\n' {
        assert Lines(s) == [""] + rest;
        assert Lines(s)[1..] == rest;
        assert s == "\n" + s[1..];
      } else {
        var ls := Lines(s);
        assert ls == [[s[0]] + rest[0]] + rest[1..];
        if |rest| == 1 {
          assert s == [s[0]] + s[1..];
        } else {
          assert ls[1..] == rest[1..];
          assert JoinLines(rest) == rest[0] + "\n" + JoinLines(rest[1..]);
          assert s == [s[0]] + s[1..];
        }
        forall i | 0 <= i < |ls|
          ensures '\n' !in ls[i]
        {
          if i > 0 {
            assert ls[i] == rest[i];
          }
        }
      }
    }
  }

  /** Text without line feeds in front of `s` only lengthens the first line. */
  lemma {:induction false} LinesPrepend(p: string, s: string)
    requires '\n' !in p
    ensures Lines(p + s) == [p + Lines(s)[0]] + Lines(s)[1..]
    decreases |p|
  {
    if p == [] {
      assert p + s == s;
      assert p + Lines(s)[0] == Lines(s)[0];
      assert Lines(s) == [Lines(s)[0]] + Lines(s)[1..];
    } else {
      assert p[0] in p;
      LinesPrepend(p[1..], s);
      assert (p + s)[1..] == p[1..] + s;
      var rest := Lines(p[1..] + s);
      assert Lines(p + s) == [[p[0]] + rest[0]] + rest[1..];
      assert [p[0]] + (p[1..] + Lines(s)[0]) == p + Lines(s)[0];
    }
  }

  /** After marking, the first line is unchanged and every later line carries the marker. */
  lemma {:induction false} LinesMarked(s: string)
    ensures |Lines(MarkAfterNewlines(s))| == |Lines(s)|
    ensures Lines(MarkAfterNewlines(s))[0] == Lines(s)[0]
    ensures forall i :: 1 <= i < |Lines(s)| ==> Lines(MarkAfterNewlines(s))[i] == "// " + Lines(s)[i]
    decreases |s|
  {
    if s != [] {
      var t := s[1..];
      LinesMarked(t);
      var lt := Lines(t);
      var lmt := Lines(MarkAfterNewlines(t));
      if s[0] == '\n' {
        var m := MarkAfterNewlines(s);
        assert m == "\n// " + MarkAfterNewlines(t);
        assert m[0] == '\n';
        assert m[1..] == "// " + MarkAfterNewlines(t);
        LinesPrepend("// ", MarkAfterNewlines(t));
        assert Lines(m) == [""] + ([("// " + lmt[0])] + lmt[1..]);
        assert Lines(s) == [""] + lt;
      } else {
        var m := MarkAfterNewlines(s);
        assert m == [s[0]] + MarkAfterNewlines(t);
        assert m[1..] == MarkAfterNewlines(t);
        assert Lines(m) == [[s[0]] + lmt[0]] + lmt[1..];
        assert Lines(s) == [[s[0]] + lt[0]] + lt[1..];
      }
    }
  }

  /** Prefixing keeps the number of lines and puts "// " in front of every one of them. */
  lemma PrefixEveryLine(s: string)
    ensures |Lines(PrefixLines(s))| == |Lines(s)|
    ensures forall i :: 0 <= i < |Lines(s)| ==> Lines(PrefixLines(s))[i] == "// " + Lines(s)[i]
  {
    LinesMarked(s);
    LinesPrepend("// ", MarkAfterNewlines(s));
  }

  lemma {:induction false} UnmarkMarked(s: string)
    ensures UnmarkAfterNewlines(MarkAfterNewlines(s)) == s
    decreases |s|
  {
    if s != [] {
      UnmarkMarked(s[1..]);
      var m := MarkAfterNewlines(s);
      if s[0] == '\n' {
        assert m == "\n// " + MarkAfterNewlines(s[1..]);
        assert m[..4] == "\n// " && m[4..] == MarkAfterNewlines(s[1..]);
      } else {
        assert m == [s[0]] + MarkAfterNewlines(s[1..]);
        assert m[1..] == MarkAfterNewlines(s[1..]);
      }
      assert s == [s[0]] + s[1..];
    }
  }

  /** Prefixing loses nothing: the unprefixed text comes back. */
  lemma UncommentPrefixLines(s: string)
    ensures Uncomment(PrefixLines(s)) == Some(s)
  {
    var t := PrefixLines(s);
    assert t[..3] == "// " && t[3..] == MarkAfterNewlines(s);
    UnmarkMarked(s);
  }

  /**
   The doc comment of a definition or property: every line starts with "// ",
   there are as many lines as in the unprefixed comment, and removing the
   prefixes gives back the unprefixed comment, whose layout RawComment states.
   */
  lemma CommentShape(naming: Naming, name: string, description: string, flags: Flags)
    ensures var raw := RawComment(naming.symbol(name), description, flags);
            var c := Comment(naming, name, description, flags);
            && |Lines(c)| == |Lines(raw)|
            && (forall i :: 0 <= i < |Lines(raw)| ==> Lines(c)[i] == "// " + Lines(raw)[i])
            && Uncomment(c) == Some(raw)
  {
    var raw := RawComment(naming.symbol(name), description, flags);
    PrefixEveryLine(raw);
    UncommentPrefixLines(raw);
  }

  /**
   Layout of the unprefixed comment: exported name, one space, the deprecated,
   experimental and optional markers in that order, each present exactly when
   its flag is set, then the description, or "..." for the "<nil>" placeholder
   and the description verbatim otherwise.
   */
  lemma RawCommentLayout(exported: string, description: string, flags: Flags)
    ensures RawComment(exported, description, flags)
            == exported + " "
               + (if flags.deprecated then DeprecatedTag else "")
               + (if flags.experimental then ExperimentalTag else "")
               + (if flags.optional then OptionalTag else "")
               + (if description == NilDescription then "..." else description)
  {
  }

  /**
   The markers are never ambiguous: two comments for the same name and
   description are equal only when all three flags agree.
   */
  lemma FlagsDetermined(exported: string, description: string, f1: Flags, f2: Flags)
    requires RawComment(exported, description, f1) == RawComment(exported, description, f2)
    ensures f1 == f2
  {
    RawCommentLayout(exported, description, f1);
    RawCommentLayout(exported, description, f2);
    var text := if description == NilDescription then "..." else description;
    assert |RawComment(exported, description, f1)| == |exported| + 1 + |Markers(f1)| + |text|;
    assert |RawComment(exported, description, f2)| == |exported| + 1 + |Markers(f2)| + |text|;
    // The marker lengths 13, 15 and 11 have pairwise distinct subset sums.
    assert |Markers(f1)| == |Markers(f2)|;
  }
}
