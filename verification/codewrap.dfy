/**
 * The `rust` template tag and the `wrap*` helpers of the first lesson: user
 * code is embedded in a fixed Rust template, library modules are prepended,
 * and `lineOffset` records how many lines precede the user code so that
 * compiler line numbers can be mapped back.
 */
module CodeWrap {

  /** Reference count: the number of '\n' characters in `s`. */
  function Newlines(s: string): nat
  {
    if |s| == 0 then 0 else (if s[0] == '\n' then 1 else 0) + Newlines(s[1..])
  }

  /** `str.split('\n')`: the pieces between newlines, in order; there is always at least one. */
  function Split(s: string): (r: seq<string>)
    ensures |r| >= 1
    ensures forall i | 0 <= i < |r| :: '\n' !in r[i]
  {
    if |s| == 0 then [""]
    else if s[0] == '\n' then [""] + Split(s[1..])
    else
      var rest := Split(s[1..]);
      [[s[0]] + rest[0]] + rest[1..]
  }

  /** `pieces.join('\n')`. */
  function Join(pieces: seq<string>): string
    requires |pieces| >= 1
  {
    if |pieces| == 1 then pieces[0] else pieces[0] + "\n" + Join(pieces[1..])
  }

  /** Splitting at the newlines and joining with newlines gives the string back. */
  lemma {:induction false} SplitJoin(s: string)
    ensures Join(Split(s)) == s
  {
    if |s| == 0 {
    } else if s[0] == '\n' {
      SplitJoin(s[1..]);
      assert [""] + Split(s[1..]) == Split(s);
      assert Split(s)[1..] == Split(s[1..]);
      assert s == "" + "\n" + s[1..];
    } else {
      var rest := Split(s[1..]);
      SplitJoin(s[1..]);
      if |rest| == 1 {
        assert s == [s[0]] + rest[0];
      } else {
        assert Split(s)[1..] == rest[1..];
        assert Join(rest) == rest[0] + "\n" + Join(rest[1..]);
        assert s == [s[0]] + s[1..];
      }
    }
  }

  /** `countLines`: one less than the number of pieces `split('\n')` gives. */
  function CountLines(s: string): (n: nat)
    ensures n == Newlines(s)
  {
    SplitCountsNewlines(s);
    |Split(s)| - 1
  }

  /** `split('\n')` yields one piece more than there are newlines. */
  lemma {:induction false} SplitCountsNewlines(s: string)
    ensures |Split(s)| == Newlines(s) + 1
  {
    if |s| > 0 {
      SplitCountsNewlines(s[1..]);
      if s[0] == '\n' {
        assert Split(s) == [""] + Split(s[1..]);
      } else {
        var rest := Split(s[1..]);
        assert Split(s) == [[s[0]] + rest[0]] + rest[1..];
      }
    }
  }

  /** Newlines are counted additively over concatenation. */
  lemma {:induction false} NewlinesAppend(a: string, b: string)
    ensures Newlines(a + b) == Newlines(a) + Newlines(b)
  {
    if |a| > 0 {
      assert (a + b)[0] == a[0] && (a + b)[1..] == a[1..] + b;
      NewlinesAppend(a[1..], b);
    } else {
      assert a + b == b;
    }
  }

  /** The `{ lineOffset, code }` object the tag returns. */
  datatype Wrapped = Wrapped(lineOffset: nat, code: string)

  /**
   * The user code occurs in `w.code` at position `at`, and `w.lineOffset`
   * is exactly the number of lines before it.
   */
  predicate Locates(w: Wrapped, user: string, at: nat)
  {
    at + |user| <= |w.code| && w.code[at..at + |user|] == user && Newlines(w.code[..at]) == w.lineOffset
  }

  /**
   * The `rust` tag applied to a template with one hole: the user code
   * between the template's two literal parts, and the newline count of the
   * first part as the offset.
   */
  function Tag(before: string, user: string, after: string): (r: Wrapped)
    ensures Locates(r, user, |before|)
  {
    var r := Wrapped(CountLines(before), before + user + after);
    assert r.code[..|before|] == before;
    assert r.code[|before|..|before| + |user|] == user;
    r
  }

  /**
   * What the `wrap*` helpers do after tagging: put a library module in
   * front of the code and add its newline count to the offset.
   */
  function Prepend(module_: string, w: Wrapped): Wrapped
  {
    Wrapped(CountLines(module_) + w.lineOffset, module_ + w.code)
  }

  /** Prepending a module keeps the offset pointing at the user code, shifted by the module. */
  lemma PrependLocates(module_: string, w: Wrapped, user: string, at: nat)
    requires Locates(w, user, at)
    ensures Locates(Prepend(module_, w), user, |module_| + at)
  {
    var c := module_ + w.code;
    assert c[..|module_| + at] == module_ + w.code[..at];
    assert c[|module_| + at..|module_| + at + |user|] == w.code[at..at + |user|];
    NewlinesAppend(module_, w.code[..at]);
  }

  /**
   * One module in front of the tagged template: `wrapIpHeaderCode` with
   * `MOD_IP`, and `wrapFullDemoCode` and `wrapFinalTestCode` with the socket
   * shim.
   */
  function WrapWithModule(module_: string, before: string, user: string, after: string): (r: Wrapped)
    ensures Locates(r, user, |module_| + |before|)
    ensures r.code == module_ + (before + user + after)
  {
    var w := Tag(before, user, after);
    PrependLocates(module_, w, user, |before|);
    Prepend(module_, w)
  }

  /**
   * `wrapUdpHeaderCode`: `MOD_IP` and `MOD_UDP` in front, both newline
   * counts added to the offset.
   */
  function WrapUdpHeaderCode(modIp: string, modUdp: string, before: string, user: string, after: string): (r: Wrapped)
    ensures Locates(r, user, |modIp| + |modUdp| + |before|)
    ensures r.code == modIp + modUdp + (before + user + after)
  {
    var w := Tag(before, user, after);
    PrependLocates(modUdp, w, user, |before|);
    PrependLocates(modIp, Prepend(modUdp, w), user, |modUdp| + |before|);
    assert modIp + (modUdp + w.code) == modIp + modUdp + w.code;
    Wrapped(CountLines(modIp) + CountLines(modUdp) + w.lineOffset, modIp + modUdp + w.code)
  }
}
