/**
 The glob compiler (globToRegex): a translation from glob patterns to anchored regular
 expressions.  The regular expressions it emits live in a small fragment of RE2; this module
 gives that fragment a parser and a matcher of its own, gives globs a meaning of their own, and
 proves that compilation preserves meaning.
 */
module Glob {
  import opened Text

  // ---------- the compiler ----------

  /** Characters globToRegex puts a backslash in front of. */
  const ESCAPED: set<char> := {'.', '+', '^', '$', '(', ')', '{', '}', '[', ']', '|', '\\'}

  predicate TwoStars(glob: string)
  {
    |glob| > 1 && glob[0] == '*' && glob[1] == '*'
  }

  /** What is left of a glob that begins with `**`: one following slash is absorbed. */
  function AfterStars(glob: string): string
    requires TwoStars(glob)
  {
    if |glob| > 2 && glob[2] == '/' then glob[3..] else glob[2..]
  }

  function Body(glob: string): string
  {
    if glob == "" then ""
    else if TwoStars(glob) then ".*" + Body(AfterStars(glob))
    else if glob[0] == '*' then "[^/]*" + Body(glob[1..])
    else if glob[0] == '?' then "[^/]" + Body(glob[1..])
    else if glob[0] in ESCAPED then ['\\', glob[0]] + Body(glob[1..])
    else [glob[0]] + Body(glob[1..])
  }

  function Compiled(glob: string): string
  {
    "^" + Body(glob) + "$"
  }

  /** globToRegex as written: one index walking the pattern, one builder. */
  method GlobToRegex(glob: string) returns (result: string)
    ensures result == Compiled(glob)
  {
    result := "^";
    var i := 0;
    while i < |glob|
      invariant 0 <= i <= |glob|
      invariant result + Body(glob[i..]) == "^" + Body(glob)
    {
      ghost var done, rest := result, glob[i..];
      assert rest[1..] == glob[i + 1..];
      if glob[i] == '*' {
        if i + 1 < |glob| && glob[i + 1] == '*' {
          result := result + ".*";
          i := i + 2;
          if i < |glob| && glob[i] == '/' {
            i := i + 1;
          }
          assert glob[i..] == AfterStars(rest);
          assert done + (".*" + Body(AfterStars(rest))) == result + Body(glob[i..]);
        } else {
          result := result + "[^/]*";
          i := i + 1;
          assert done + ("[^/]*" + Body(rest[1..])) == result + Body(glob[i..]);
        }
      } else if glob[i] == '?' {
        result := result + "[^/]";
        i := i + 1;
        assert done + ("[^/]" + Body(rest[1..])) == result + Body(glob[i..]);
      } else if glob[i] in ESCAPED {
        result := result + "\\";
        result := result + [glob[i]];
        i := i + 1;
        assert done + (['\\', rest[0]] + Body(rest[1..])) == result + Body(glob[i..]);
      } else {
        result := result + [glob[i]];
        i := i + 1;
        assert done + ([rest[0]] + Body(rest[1..])) == result + Body(glob[i..]);
      }
    }
    assert glob[i..] == "";
    result := result + "$";
  }

  // ---------- what a glob means ----------

  predicate SlashFree(s: string)
  {
    forall i :: 0 <= i < |s| ==> s[i] != '/'
  }

  predicate NewlineFree(s: string)
  {
    forall i :: 0 <= i < |s| ==> s[i] != '\n'
  }

  /**
   The paths a glob denotes.  `**` stands for any string (and takes one following slash of the
   pattern with it), `*` for any slash-free string, `?` for one character other than a slash,
   and everything else for itself.  With `lines` false, `**` does not run across a newline.
   */
  ghost predicate Denotes(glob: string, path: string, lines: bool)
    decreases |glob|
  {
    if glob == "" then path == ""
    else if TwoStars(glob) then
      exists k :: 0 <= k <= |path| && (lines || NewlineFree(path[..k])) && Denotes(AfterStars(glob), path[k..], lines)
    else if glob[0] == '*' then
      exists k :: 0 <= k <= |path| && SlashFree(path[..k]) && Denotes(glob[1..], path[k..], lines)
    else if path == "" then false
    else if glob[0] == '?' then path[0] != '/' && Denotes(glob[1..], path[1..], lines)
    else path[0] == glob[0] && Denotes(glob[1..], path[1..], lines)
  }

  // ---------- the regular-expression fragment ----------

  datatype Atom = AnyChar | NotSlash | Literal(c: char)
  datatype Piece = One(atom: Atom) | Many(atom: Atom)

  /** Characters with a meaning of their own in a regular expression. */
  const META: set<char> := ESCAPED + {'*', '?'}

  predicate Accepts(a: Atom, c: char)
  {
    match a
    case AnyChar => c != '\n'
    case NotSlash => c != '/'
    case Literal(d) => c == d
  }

  predicate AllAccepted(a: Atom, s: string)
  {
    forall i :: 0 <= i < |s| ==> Accepts(a, s[i])
  }

  ghost predicate Matches(pieces: seq<Piece>, s: string)
    decreases |pieces|
  {
    if pieces == [] then s == ""
    else match pieces[0]
      case One(a) => s != "" && Accepts(a, s[0]) && Matches(pieces[1..], s[1..])
      case Many(a) => exists k :: 0 <= k <= |s| && AllAccepted(a, s[..k]) && Matches(pieces[1..], s[k..])
  }

  /** One atom off the front of an expression: `.`, `[^/]`, an escaped or a plain character. */
  function ParseAtom(s: string): (r: Option<(Atom, string)>)
    ensures r.Some? ==> |r.value.1| < |s|
  {
    if s == "" then None
    else if s[0] == '.' then Some((AnyChar, s[1..]))
    else if "[^/]" <= s then Some((NotSlash, s[4..]))
    else if s[0] == '\\' && |s| > 1 && s[1] in META then Some((Literal(s[1]), s[2..]))
    else if s[0] in META then None
    else Some((Literal(s[0]), s[1..]))
  }

  function ParsePieces(s: string): Option<seq<Piece>>
    decreases |s|
  {
    if s == "$" then Some([])
    else match ParseAtom(s)
      case None => None
      case Some((a, rest)) =>
        var starred := rest != "" && rest[0] == '*';
        match ParsePieces(if starred then rest[1..] else rest)
        case None => None
        case Some(pieces) => Some([if starred then Many(a) else One(a)] + pieces)
  }

  /** The anchored fragment: `^`, atoms each with or without a star, `$`. */
  function Parse(regex: string): Option<seq<Piece>>
  {
    if regex != "" && regex[0] == '^' then ParsePieces(regex[1..]) else None
  }

  // ---------- compilation preserves meaning ----------

  function Pieces(glob: string): seq<Piece>
  {
    if glob == "" then []
    else if TwoStars(glob) then [Many(AnyChar)] + Pieces(AfterStars(glob))
    else if glob[0] == '*' then [Many(NotSlash)] + Pieces(glob[1..])
    else if glob[0] == '?' then [One(NotSlash)] + Pieces(glob[1..])
    else [One(Literal(glob[0]))] + Pieces(glob[1..])
  }

  /** No emitted piece starts with a star, so none can be read as the star of the piece before. */
  lemma BodyHead(glob: string)
    ensures (Body(glob) + "$")[0] != '*'
  {
  }

  lemma OnePiece(s: string, a: Atom, rest: string, pieces: seq<Piece>)
    requires s != "$" && ParseAtom(s) == Some((a, rest)) && rest != "" && rest[0] != '*'
    requires ParsePieces(rest) == Some(pieces)
    ensures ParsePieces(s) == Some([One(a)] + pieces)
  {
  }

  lemma ManyPiece(s: string, a: Atom, rest: string, pieces: seq<Piece>)
    requires s != "$" && ParseAtom(s) == Some((a, rest)) && rest != "" && rest[0] == '*'
    requires ParsePieces(rest[1..]) == Some(pieces)
    ensures ParsePieces(s) == Some([Many(a)] + pieces)
  {
  }

  lemma {:induction false} BodyParses(glob: string)
    ensures ParsePieces(Body(glob) + "$") == Some(Pieces(glob))
    decreases |glob|
  {
    var s := Body(glob) + "$";
    if glob == "" {
      assert s == "$";
      return;
    }
    hide ParsePieces;
    if TwoStars(glob) {
      var rest := AfterStars(glob);
      BodyParses(rest);
      assert s == ".*" + (Body(rest) + "$");
      assert s[1..][1..] == Body(rest) + "$";
      ManyPiece(s, AnyChar, s[1..], Pieces(rest));
    } else {
      var rest := glob[1..];
      BodyParses(rest);
      BodyHead(rest);
      if glob[0] == '*' {
        assert s == "[^/]*" + (Body(rest) + "$");
        assert s[4..][1..] == Body(rest) + "$";
        ManyPiece(s, NotSlash, s[4..], Pieces(rest));
      } else if glob[0] == '?' {
        assert s == "[^/]" + (Body(rest) + "$");
        assert s[4..] == Body(rest) + "$";
        OnePiece(s, NotSlash, s[4..], Pieces(rest));
      } else if glob[0] in ESCAPED {
        assert s == ['\\', glob[0]] + (Body(rest) + "$");
        assert s[2..] == Body(rest) + "$";
        OnePiece(s, Literal(glob[0]), s[2..], Pieces(rest));
      } else {
        assert s == [glob[0]] + (Body(rest) + "$");
        assert s[1..] == Body(rest) + "$";
        OnePiece(s, Literal(glob[0]), s[1..], Pieces(rest));
      }
    }
  }

  lemma {:induction false} PiecesMeaning(glob: string, path: string)
    ensures Matches(Pieces(glob), path) <==> Denotes(glob, path, false)
    decreases |glob|
  {
    if glob == "" {
    } else if TwoStars(glob) {
      assert Pieces(glob)[1..] == Pieces(AfterStars(glob));
      forall k | 0 <= k <= |path|
        ensures AllAccepted(AnyChar, path[..k]) <==> NewlineFree(path[..k])
        ensures Matches(Pieces(AfterStars(glob)), path[k..]) <==> Denotes(AfterStars(glob), path[k..], false)
      {
        PiecesMeaning(AfterStars(glob), path[k..]);
      }
    } else if glob[0] == '*' {
      assert Pieces(glob)[1..] == Pieces(glob[1..]);
      forall k | 0 <= k <= |path|
        ensures AllAccepted(NotSlash, path[..k]) <==> SlashFree(path[..k])
        ensures Matches(Pieces(glob[1..]), path[k..]) <==> Denotes(glob[1..], path[k..], false)
      {
        PiecesMeaning(glob[1..], path[k..]);
      }
    } else {
      assert Pieces(glob)[1..] == Pieces(glob[1..]);
      if path != "" {
        PiecesMeaning(glob[1..], path[1..]);
      }
    }
  }

  /** Every glob compiles into the anchored fragment, to an expression matching what the glob denotes. */
  lemma CompilePreservesMeaning(glob: string)
    ensures Parse(Compiled(glob)).Some?
    ensures forall path :: Matches(Parse(Compiled(glob)).value, path) <==> Denotes(glob, path, false)
  {
    assert Compiled(glob)[1..] == Body(glob) + "$";
    BodyParses(glob);
    forall path ensures Matches(Pieces(glob), path) <==> Denotes(glob, path, false) {
      PiecesMeaning(glob, path);
    }
  }

  /** On newline-free paths `**` is the documented "any depth": the two readings agree. */
  lemma {:induction false} NewlineFreeReading(glob: string, path: string)
    requires NewlineFree(path)
    ensures Denotes(glob, path, false) <==> Denotes(glob, path, true)
    decreases |glob|
  {
    if glob == "" {
    } else if TwoStars(glob) {
      forall k | 0 <= k <= |path|
        ensures NewlineFree(path[..k])
        ensures Denotes(AfterStars(glob), path[k..], false) <==> Denotes(AfterStars(glob), path[k..], true)
      {
        NewlineFreeReading(AfterStars(glob), path[k..]);
      }
    } else if glob[0] == '*' {
      forall k | 0 <= k <= |path|
        ensures Denotes(glob[1..], path[k..], false) <==> Denotes(glob[1..], path[k..], true)
      {
        NewlineFreeReading(glob[1..], path[k..]);
      }
    } else if path != "" {
      NewlineFreeReading(glob[1..], path[1..]);
    }
  }

  /** `**` alone takes any path at all as documented, and the newline-free ones as compiled. */
  lemma StarsTakeAll(path: string)
    ensures Denotes("**", path, true)
    ensures Denotes("**", path, false) <==> NewlineFree(path)
  {
    assert AfterStars("**") == "" && path[..|path|] == path && path[|path|..] == "";
    assert Denotes("", path[|path|..], true) && Denotes("", path[|path|..], false);
    forall k | 0 <= k <= |path| && Denotes("", path[k..], false) ensures k == |path| {
    }
  }

  /** The paths on which the documented and the compiled reading of every glob agree are the newline-free ones. */
  lemma NewlineFreeIff(path: string)
    ensures NewlineFree(path) <==> forall glob :: Denotes(glob, path, false) <==> Denotes(glob, path, true)
  {
    if NewlineFree(path) {
      forall glob ensures Denotes(glob, path, false) <==> Denotes(glob, path, true) {
        NewlineFreeReading(glob, path);
      }
    }
    StarsTakeAll(path);
  }

  /** A request path may hold a decoded newline; there the compiled `**` falls short of "any depth". */
  lemma NewlineStopsStars()
    ensures Denotes("/**", "/a\nb", true) && !Denotes("/**", "/a\nb", false)
  {
    var glob, path := "/**", "/a\nb";
    assert glob[1..] == "**" && path[1..] == "a\nb" && AfterStars("**") == "";
    assert "a\nb"[3..] == "";
    assert Denotes("", "a\nb"[3..], true);
    assert Denotes("**", "a\nb", true);
    forall k | 0 <= k <= 3 && Denotes("", "a\nb"[k..], false)
      ensures !NewlineFree("a\nb"[..k])
    {
      assert k == 3 && "a\nb"[..3][1] == '\n';
    }
    assert !Denotes("**", "a\nb", false);
  }

  lemma StarAlone(path: string, lines: bool)
    ensures Denotes("*", path, lines) <==> '/' !in path
  {
    assert "*"[1..] == "" && path[..|path|] == path && path[|path|..] == "";
    assert Denotes("", path[|path|..], lines);
    forall k | 0 <= k <= |path| && Denotes("", path[k..], lines) ensures k == |path| {
    }
  }

  /** Each wildcard on its own, and a character that is none. */
  lemma WildcardsAlone(path: string, lines: bool, c: char)
    requires c != '*' && c != '?'
    ensures Denotes("?", path, lines) <==> |path| == 1 && path[0] != '/'
    ensures Denotes("*", path, lines) <==> '/' !in path
    ensures Denotes("**", path, true)
    ensures Denotes("**", path, false) <==> '\n' !in path
    ensures Denotes([c], path, lines) <==> path == [c]
  {
    StarsTakeAll(path);
    StarAlone(path, lines);
    OneAlone("?", path, lines);
    OneAlone([c], path, lines);
  }

  lemma OneAlone(glob: string, path: string, lines: bool)
    requires |glob| == 1 && glob[0] != '*'
    ensures Denotes(glob, path, lines) <==> |path| == 1 && if glob[0] == '?' then path[0] != '/' else path[0] == glob[0]
  {
    assert glob[1..] == "";
    if |path| >= 1 {
      assert path == [path[0]] + path[1..];
    }
  }
}
