/** The hardened path validator, and what a path that passes it looks like. */
module SecretPath {
  import opened Strings

  const MAX_LENGTH := 256

  datatype Reason =
    | EmptyPath | TooLong | Absolute | TrailingSlash
    | NullByte | ControlCharacter | ForbiddenCharacter
    | EmptySegment | TraversalSegment

  datatype Verdict = Valid | Invalid(reason: Reason)

  predicate Allowed(c: char)
  {
    || 'a' <= c <= 'z' || 'A' <= c <= 'Z' || '0' <= c <= '9'
    || c == '-' || c == '_' || c == '.' || c == '/' || c == ':'
  }

  predicate GoodSegment(seg: string)
  {
    seg != "" && seg != "." && seg != ".."
  }

  predicate AllAllowed(path: string)
  {
    forall i :: 0 <= i < |path| ==> Allowed(path[i])
  }

  predicate GoodSegments(segs: seq<string>)
  {
    forall i :: 0 <= i < |segs| ==> GoodSegment(segs[i])
  }

  /** The declarative form: length, alphabet, and no empty or dot segment between slashes. */
  predicate WellFormed(path: string)
  {
    1 <= |path| <= 256 && AllAllowed(path) && GoodSegments(Split(path, '/'))
  }

  /** By code: `-`, `.`, `/`, the digits and `:`; the capitals; `_`; the small letters. */
  ghost predicate InAlphabet(code: int)
  {
    45 <= code <= 58 || 65 <= code <= 90 || code == 95 || 97 <= code <= 122
  }

  /** Well formed, spelled out: 1 to 256 characters of the alphabet, and no empty, `.` or `..` part between slashes. */
  lemma {:induction false} WellFormedExactly(path: string)
    ensures WellFormed(path) <==>
              && 1 <= |path| <= 256 && (forall i :: 0 <= i < |path| ==> InAlphabet(path[i] as int))
              && "" !in Split(path, '/') && "." !in Split(path, '/') && ".." !in Split(path, '/')
  {
    assert forall c: char :: Allowed(c) <==> InAlphabet(c as int);
    var parts := Split(path, '/');
    assert GoodSegments(parts) <==> "" !in parts && "." !in parts && ".." !in parts;
  }

  /** What each refusal says about the path. */
  ghost predicate Explains(path: string, reason: Reason)
  {
    match reason
    case EmptyPath => path == ""
    case TooLong => |path| > 256
    case Absolute => path != "" && path[0] == '/'
    case TrailingSlash => path != "" && path[|path|-1] == '/'
    case NullByte => exists i :: 0 <= i < |path| && path[i] as int == 0 && AllAllowed(path[..i])
    case ControlCharacter => exists i :: 0 <= i < |path| && (0 < path[i] as int < 0x20 || path[i] as int == 0x7f) && AllAllowed(path[..i])
    case ForbiddenCharacter => exists i :: 0 <= i < |path| && !Allowed(path[i]) && path[i] as int >= 0x20 && path[i] as int != 0x7f && AllAllowed(path[..i])
    case EmptySegment => AllAllowed(path) && "" in Split(path, '/')
    case TraversalSegment => AllAllowed(path) && ("." in Split(path, '/') || ".." in Split(path, '/'))
  }

  method Validate(path: string) returns (r: Verdict)
    ensures r.Valid? <==> WellFormed(path)
    ensures r.Valid? <==>
              && 1 <= |path| <= 256 && (forall i :: 0 <= i < |path| ==> InAlphabet(path[i] as int))
              && "" !in Split(path, '/') && "." !in Split(path, '/') && ".." !in Split(path, '/')
    ensures r.Invalid? ==> Explains(path, r.reason)
  {
    WellFormedExactly(path);
    if path == "" {
      return Invalid(EmptyPath);
    }
    if |path| > MAX_LENGTH {
      return Invalid(TooLong);
    }
    if path[0] == '/' {
      EdgeSlash(path);
      return Invalid(Absolute);
    }
    if path[|path|-1] == '/' {
      EdgeSlash(path);
      return Invalid(TrailingSlash);
    }
    r := CheckCharacters(path);
    if r.Invalid? {
      return;
    }
    r := CheckSegments(path);
  }

  method CheckCharacters(path: string) returns (r: Verdict)
    ensures r.Valid? <==> AllAllowed(path)
    ensures r.Invalid? ==> r.reason in {NullByte, ControlCharacter, ForbiddenCharacter} && Explains(path, r.reason)
  {
    for i := 0 to |path|
      invariant AllAllowed(path[..i])
    {
      var c := path[i];
      if c as int == 0 {
        return Invalid(NullByte);
      }
      if c as int < 0x20 || c as int == 0x7f {
        return Invalid(ControlCharacter);
      }
      if !Allowed(c) {
        return Invalid(ForbiddenCharacter);
      }
    }
    assert path[..|path|] == path;
    r := Valid;
  }

  /** Walks the path segment by segment; `start` is where the current segment began. */
  method CheckSegments(path: string) returns (r: Verdict)
    requires AllAllowed(path)
    ensures r.Valid? <==> GoodSegments(Split(path, '/'))
    ensures r.Invalid? ==> r.reason in {EmptySegment, TraversalSegment} && Explains(path, r.reason)
  {
    hide Split, Allowed;
    var start, i := 0, 0;
    ghost var done: seq<string> := [];
    assert path[0..] == path && [] + Split(path, '/') == Split(path, '/');
    while i <= |path|
      invariant 0 <= start <= i <= |path| + 1
      invariant i <= |path| ==> '/' !in path[start..i] && Split(path, '/') == done + Split(path[start..], '/')
      invariant i == |path| + 1 ==> Split(path, '/') == done
      invariant GoodSegments(done)
    {
      if i == |path| || path[i] == '/' {
        var seg := path[start..i];
        NextSegment(path, start, i);
        assert Split(path, '/')[|done|] == seg;
        if seg == "" {
          return Invalid(EmptySegment);
        }
        if seg == "." || seg == ".." {
          return Invalid(TraversalSegment);
        }
        done := done + [seg];
        start := i + 1;
        if i < |path| {
          assert path[start..i+1] == "";
        }
      } else {
        assert path[start..i+1] == path[start..i] + [path[i]];
      }
      i := i + 1;
    }
    r := Valid;
  }

  /** At the end of a segment, the split of what remains is that segment and the split of the rest. */
  lemma NextSegment(path: string, start: nat, i: nat)
    requires start <= i <= |path| && '/' !in path[start..i] && (i == |path| || path[i] == '/')
    ensures i == |path| ==> Split(path[start..], '/') == [path[start..i]]
    ensures i < |path| ==> Split(path[start..], '/') == [path[start..i]] + Split(path[i+1..], '/')
  {
    if i == |path| {
      SplitClean(path[start..], '/');
      assert path[start..] == path[start..i];
    } else {
      assert path[start..] == path[start..i] + ['/'] + path[i+1..];
      SplitAt(path[start..i], path[i+1..], '/');
    }
  }

  /** A slash at either end makes an empty segment, so the two early checks add nothing. */
  lemma {:induction false} EdgeSlash(path: string)
    requires path != "" && (path[0] == '/' || path[|path|-1] == '/')
    ensures "" in Split(path, '/') && !GoodSegments(Split(path, '/'))
  {
    if path[0] == '/' {
      assert Split(path, '/')[0] == "";
    } else {
      TrailingSlashSplit(path);
    }
  }

  lemma {:induction false} TrailingSlashSplit(path: string)
    requires path != "" && path[|path|-1] == '/'
    ensures var parts := Split(path, '/'); |parts| >= 2 && parts[|parts|-1] == ""
  {
    if |path| == 1 {
      assert Split(path[1..], '/') == [""];
    } else {
      TrailingSlashSplit(path[1..]);
    }
  }

  /**
   On an accepted path the prefix trim of the handler and the slash trim of the matcher
   change nothing, and its segments joined again are the very string the backend receives.
   */
  lemma {:induction false} AcceptedPathIsItsSegments(path: string)
    requires WellFormed(path)
    ensures TrimPrefix(path, "/") == path
    ensures Trim(path, '/') == path
    ensures Join(Split(Trim(path, '/'), '/'), '/') == path
  {
    if path[0] == '/' || path[|path|-1] == '/' {
      EdgeSlash(path);
    }
    JoinSplit(path, '/');
  }
}
