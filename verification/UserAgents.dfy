/** User agent strings (`connection/src/user_agent.rs`). */
module UserAgents {

  datatype UserAgentError = InvalidFormat | MissingName | MissingVersion
  datatype Validation = Valid | Invalid(error: UserAgentError)

  /** str::split(':') */
  function Split(s: string): (parts: seq<string>)
    ensures parts != []
  {
    if s == "" then [""]
    else
      var tail := Split(s[1..]);
      if s[0] == ':' then [""] + tail else [[s[0]] + tail[0]] + tail[1..]
  }

  function Validate(ua: string): Validation {
    if |ua| == 0 || ua[0] != '/' || ua[|ua| - 1] != '/' then Invalid(InvalidFormat)
    else if ':' !in ua then Invalid(InvalidFormat)
    else
      assert |ua| >= 3 by { ColonInside(ua); }
      var contents := ua[1..|ua| - 1];
      var parts := Split(contents);
      if |parts| != 2 then Invalid(InvalidFormat)
      else if parts[0] == "" then Invalid(MissingName)
      else if parts[1] == "" then Invalid(MissingVersion)
      else Valid
  }

  function Format(name: string, version: string): string {
    "/" + name + ":" + version + "/"
  }

  /** The slice between the slashes is always in range: a string of slashes alone has no colon. */
  lemma ColonInside(ua: string)
    requires |ua| > 0 && ua[0] == '/' && ua[|ua| - 1] == '/' && ':' in ua
    ensures |ua| >= 3
  {
    var i :| 0 <= i < |ua| && ua[i] == ':';
    assert i != 0 && i != |ua| - 1;
  }

  function Join(parts: seq<string>): string
    requires parts != []
  {
    if |parts| == 1 then parts[0] else parts[0] + ":" + Join(parts[1..])
  }

  /** Splitting loses nothing, and the parts hold no colon. */
  lemma {:induction false} SplitJoin(s: string)
    ensures Join(Split(s)) == s
    ensures forall i :: 0 <= i < |Split(s)| ==> ':' !in Split(s)[i]
  {
    if s == "" {
    } else {
      SplitJoin(s[1..]);
      var tail := Split(s[1..]);
      assert s == [s[0]] + s[1..];
      if s[0] == ':' {
        assert ([""] + tail)[1..] == tail;
      } else {
        var parts := [[s[0]] + tail[0]] + tail[1..];
        assert parts[1..] == tail[1..];
        assert |tail| > 1 ==> Join(parts) == ([s[0]] + tail[0]) + ":" + Join(tail[1..]);
      }
    }
  }

  lemma {:induction false} SplitPlain(s: string)
    requires ':' !in s
    ensures Split(s) == [s]
  {
    if s != "" {
      SplitPlain(s[1..]);
      assert s == [s[0]] + s[1..];
    }
  }

  lemma {:induction false} SplitPair(n: string, v: string)
    requires ':' !in n && ':' !in v
    ensures Split(n + ":" + v) == [n, v]
  {
    var s := n + ":" + v;
    if n == "" {
      assert s[1..] == v;
      SplitPlain(v);
    } else {
      SplitPair(n[1..], v);
      assert s[1..] == n[1..] + ":" + v;
      assert n == [n[0]] + n[1..];
    }
  }

  predicate Component(s: string) { s != "" && ':' !in s }

  lemma FormatSlices(n: string, v: string)
    ensures var ua := Format(n, v);
      |ua| >= 3 && ua[0] == '/' && ua[|ua| - 1] == '/' && ':' in ua && ua[1..|ua| - 1] == n + ":" + v
  {
    var ua := Format(n, v);
    assert ua[1 + |n|] == ':';
  }

  lemma Enclosed(ua: string)
    requires |ua| >= 2 && ua[0] == '/' && ua[|ua| - 1] == '/'
    ensures ua == "/" + ua[1..|ua| - 1] + "/"
  {
  }

  lemma FormatEncloses(n: string, v: string)
    ensures Format(n, v) == "/" + (n + ":" + v) + "/"
  {
  }

  /** A string that does not have the wrong format is made of slashes and two parts without colons. */
  lemma PartsOf(ua: string) returns (n: string, v: string)
    requires Validate(ua) != Invalid(InvalidFormat)
    ensures ':' !in n && ':' !in v && ua == Format(n, v)
  {
    ColonInside(ua);
    var contents := ua[1..|ua| - 1];
    var parts := Split(contents);
    SplitJoin(contents);
    assert Join(parts) == parts[0] + ":" + parts[1];
    n, v := parts[0], parts[1];
    Enclosed(ua);
    FormatEncloses(n, v);
  }

  /** Validation accepts exactly the strings `/n:v/` with n and v non-empty and free of colons. */
  lemma ValidExactly(ua: string)
    ensures Validate(ua) == Valid <==> exists n, v :: Component(n) && Component(v) && ua == "/" + n + ":" + v + "/"
  {
    if Validate(ua) == Valid {
      var n, v := PartsOf(ua);
      FormatValidExactly(n, v);
      assert Component(n) && Component(v);
    }
    forall n, v | Component(n) && Component(v) && ua == "/" + n + ":" + v + "/" ensures Validate(ua) == Valid {
      FormatValidExactly(n, v);
    }
  }

  predicate Plain(s: string) { ':' !in s }

  /** A missing name is reported exactly for `/:v/`, a missing version exactly for `/n:/`, and all else has the wrong format. */
  lemma ErrorsExactly(ua: string)
    ensures Validate(ua) == Invalid(MissingName) <==> exists v :: Plain(v) && ua == "/" + "" + ":" + v + "/"
    ensures Validate(ua) == Invalid(MissingVersion) <==> exists n :: Component(n) && ua == "/" + n + ":" + "" + "/"
    ensures Validate(ua) == Invalid(InvalidFormat) <==> forall n, v :: Plain(n) && Plain(v) ==> ua != "/" + n + ":" + v + "/"
  {
    if Validate(ua) != Invalid(InvalidFormat) {
      var n, v := PartsOf(ua);
      FormatValidExactly(n, v);
      assert Plain(n) && Plain(v);
      assert n != "" ==> Component(n);
    }
    forall n, v | Plain(n) && Plain(v) && ua == "/" + n + ":" + v + "/"
      ensures Validate(ua) == if n == "" then Invalid(MissingName) else if v == "" then Invalid(MissingVersion) else Valid
    {
      FormatValidExactly(n, v);
    }
    assert Plain("");
    assert forall n :: Component(n) ==> Plain(n);
  }

  /** The name and version of a valid string are determined by it. */
  lemma DecompositionUnique(n: string, v: string, n': string, v': string)
    requires ':' !in n && ':' !in v && ':' !in n' && ':' !in v'
    requires Format(n, v) == Format(n', v')
    ensures n == n' && v == v'
  {
    FormatSlices(n, v);
    FormatSlices(n', v');
    SplitPair(n, v);
    SplitPair(n', v');
  }

  /** `name:version` split at its colons. */
  lemma {:induction false} SplitCount(s: string)
    ensures |Split(s)| == 1 <==> ':' !in s
  {
    if s != "" {
      SplitCount(s[1..]);
      assert s == [s[0]] + s[1..];
    }
  }

  lemma {:induction false} SplitColon(n: string, v: string)
    ensures |Split(n + ":" + v)| == |Split(n)| + |Split(v)|
  {
    var s := n + ":" + v;
    if n == "" {
      assert s[1..] == v;
    } else {
      SplitColon(n[1..], v);
      assert s[1..] == n[1..] + ":" + v;
    }
  }

  /**
   A formatted string is valid exactly when both components are non-empty and free of colons. So the
   constructor from components, which does not validate, yields an invalid value for all others.
   Otherwise the error is the first that applies: a colon, an empty name, an empty version.
   */
  lemma FormatValidExactly(n: string, v: string)
    ensures Validate(Format(n, v)) ==
      if ':' in n || ':' in v then Invalid(InvalidFormat)
      else if n == "" then Invalid(MissingName)
      else if v == "" then Invalid(MissingVersion)
      else Valid
  {
    FormatSlices(n, v);
    if ':' in n || ':' in v {
      SplitColon(n, v);
      SplitCount(n);
      SplitCount(v);
    } else {
      SplitPair(n, v);
    }
  }

  /** A concrete call of the constructor from components whose result does not validate. */
  lemma FormatCanBeInvalid()
    ensures Validate(Format("a:b", "1")) == Invalid(InvalidFormat)
  {
    assert "a:b"[1] == ':';
    FormatValidExactly("a:b", "1");
  }
}
