/** The kernel string functions the store path relies on: `kstrndup`, which
    copies a bounded prefix of the input, and `strsep`, which splits the copy
    on commas. `Fields` is the list of tokens a full run of `strsep` yields. */
module CString {
  import opened Kernel

  /** The string `kstrndup(s, max, gfp)` returns when its allocation succeeds:
      the bytes of `s` before the first NUL, but no more than `max` of them. */
  function Kstrndup(s: seq<Byte>, max: nat): (r: seq<Byte>)
    ensures |r| <= max && r <= s
    ensures IsCString(r)
    ensures |r| == max || |r| == |s| || s[|r|] == NUL
    decreases |s|
  {
    if s == [] || max == 0 || s[0] == NUL then [] else [s[0]] + Kstrndup(s[1..], max - 1)
  }

  /** A C string of at most `max` bytes is copied whole. */
  lemma KstrndupShort(s: seq<Byte>, max: nat)
    requires IsCString(s) && |s| <= max
    ensures Kstrndup(s, max) == s
  {
  }

  /** The position of the first `c` in `s`, or `|s|` when there is none. */
  function IndexOf(s: seq<Byte>, c: Byte): (i: nat)
    ensures i <= |s|
    ensures forall k :: 0 <= k < i ==> s[k] != c
    ensures i < |s| ==> s[i] == c
    decreases |s|
  {
    if s == [] then 0 else if s[0] == c then 0 else 1 + IndexOf(s[1..], c)
  }

  /** The tokens of `s` separated by commas, in order, empty ones included.
      There is at least one; no token holds a comma, is longer than `s`, or
      holds a NUL that `s` does not. */
  function Fields(s: seq<Byte>): (r: seq<seq<Byte>>)
    ensures |r| > 0
    ensures forall i :: 0 <= i < |r| ==> ',' !in r[i]
    ensures IsCString(s) ==> forall i :: 0 <= i < |r| ==> IsCString(r[i])
    ensures forall i :: 0 <= i < |r| ==> |r[i]| <= |s|
    decreases |s|
  {
    if s == [] then [[]]
    else
      assert s == [s[0]] + s[1..];
      var tail := Fields(s[1..]);
      if s[0] == ',' then [[]] + tail else [[s[0]] + tail[0]] + tail[1..]
  }

  /** Empty tokens are kept, so there is one more token than there are
      commas. */
  lemma {:induction false} FieldsCount(s: seq<Byte>)
    ensures |Fields(s)| == multiset(s)[','] + 1
    decreases |s|
  {
    if s != [] {
      assert s == [s[0]] + s[1..];
      FieldsCount(s[1..]);
    }
  }

  /** The inverse of `Fields`: the tokens put back together with commas. */
  function Join(fields: seq<seq<Byte>>): seq<Byte>
    requires |fields| > 0
    decreases |fields|
  {
    if |fields| == 1 then fields[0] else fields[0] + [','] + Join(fields[1..])
  }

  /** A comma-free prefix stays glued to the first token of what follows it. */
  lemma {:induction false} FieldsPrefix(a: seq<Byte>, t: seq<Byte>)
    requires ',' !in a
    ensures Fields(a + t) == [a + Fields(t)[0]] + Fields(t)[1..]
    decreases |a|
  {
    var f := Fields(t);
    if a == [] {
      assert a + t == t && a + f[0] == f[0];
      assert [f[0]] + f[1..] == f;
    } else {
      assert (a + t)[0] == a[0] && (a + t)[1..] == a[1..] + t;
      FieldsPrefix(a[1..], t);
      var tail := Fields(a[1..] + t);
      assert tail[0] == a[1..] + f[0] && tail[1..] == f[1..];
      assert [a[0]] + (a[1..] + f[0]) == a + f[0];
    }
  }

  /** A comma-free token followed by a comma starts the token list. */
  lemma FieldsCons(a: seq<Byte>, b: seq<Byte>)
    requires ',' !in a
    ensures Fields(a + [','] + b) == [a] + Fields(b)
  {
    var t := [','] + b;
    assert a + [','] + b == a + t;
    assert t[0] == ',' && t[1..] == b;
    assert Fields(t) == [[]] + Fields(b);
    FieldsPrefix(a, t);
    assert a + [] == a;
  }

  /** A comma-free string is a single token. */
  lemma FieldsSingle(a: seq<Byte>)
    requires ',' !in a
    ensures Fields(a) == [a]
  {
    FieldsPrefix(a, []);
    assert a + [] == a;
  }

  /** Joining the tokens of `s` gives `s` back. */
  lemma {:induction false} JoinFields(s: seq<Byte>)
    ensures Join(Fields(s)) == s
  {
    var i := IndexOf(s, ',');
    if i == |s| {
      FieldsSingle(s);
    } else {
      assert ',' !in s[..i];
      assert s == s[..i] + [','] + s[i + 1..];
      FieldsCons(s[..i], s[i + 1..]);
      JoinFields(s[i + 1..]);
    }
  }

  /** Splitting comma-free tokens joined with commas gives the tokens back. */
  lemma {:induction false} FieldsJoin(fields: seq<seq<Byte>>)
    requires |fields| > 0
    requires forall i :: 0 <= i < |fields| ==> ',' !in fields[i]
    ensures Fields(Join(fields)) == fields
    decreases |fields|
  {
    if |fields| == 1 {
      FieldsSingle(fields[0]);
    } else {
      FieldsCons(fields[0], Join(fields[1..]));
      FieldsJoin(fields[1..]);
    }
  }

  /** What `strsep(&p, ",")` returns, and what it leaves in `p`. */
  datatype Sep = Sep(token: Option<seq<Byte>>, rest: Option<seq<Byte>>)

  /** `strsep(&p, ",")`: a NULL `p` yields NULL; otherwise the token runs up
      to the first comma, which is overwritten by NUL, and `p` moves past it,
      or becomes NULL when there is no comma left. */
  function Strsep(p: Option<seq<Byte>>): Sep
  {
    match p
    case None => Sep(None, None)
    case Some(s) =>
      var i := IndexOf(s, ',');
      if i == |s| then Sep(Some(s), None) else Sep(Some(s[..i]), Some(s[i + 1..]))
  }

  /** The tokens `strsep` has still to yield from `p`. */
  function Pending(p: Option<seq<Byte>>): seq<seq<Byte>>
  {
    match p
    case None => []
    case Some(s) => Fields(s)
  }

  /** One call of `strsep` on a non-NULL pointer yields the first token of
      `Fields` and leaves exactly the others pending. */
  lemma StrsepStep(s: seq<Byte>)
    ensures Strsep(Some(s)).token == Some(Fields(s)[0])
    ensures Pending(Strsep(Some(s)).rest) == Fields(s)[1..]
  {
    var i := IndexOf(s, ',');
    assert ',' !in s[..i];
    if i == |s| {
      FieldsSingle(s);
    } else {
      assert s == s[..i] + [','] + s[i + 1..];
      FieldsCons(s[..i], s[i + 1..]);
    }
  }
}
