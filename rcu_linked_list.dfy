/** The dog registry of sync/rcu/rcu-linked-list.c: a FIFO list of dog
    records, written through a sysfs attribute (`dog_attr_store` appends a
    record parsed from `"breed,age,flag"`), read through it
    (`dog_attr_show` prints every record into a 64-byte buffer), and aged
    by a timer (`timer_remove_dog` unlinks the oldest record and hands it
    to deferred freeing).

    Writers hold `list_update_lock` and readers work on an RCU snapshot,
    so each operation is modelled as one atomic step on `DogRegistry`. */
module RcuLinkedList {
  import opened Kernel
  import opened CString
  import Kstrtox
  import opened Vsprintf

  /** `DOG_ENTRY_NBYTES`: how much of a write is read, and the size of the
      buffer a read is formatted into. */
  const DOG_ENTRY_NBYTES: nat := 64

  /** `struct dog`, without its list and RCU links; the age is in months. */
  datatype Dog = Dog(breed: seq<Byte>, age: Int32, trainingEasy: bool)

  /** A breed is a token of the copied input: a C string of at most
      `DOG_ENTRY_NBYTES` bytes with no comma in it. */
  predicate WellFormed(d: Dog)
  {
    IsCString(d.breed) && ',' !in d.breed && |d.breed| <= DOG_ENTRY_NBYTES
  }

  // ---------------------------------------------------------------------
  // Reading a record: dog_attr_show

  /** One record as `"%s %d %s\n"` prints it. */
  function Record(d: Dog): seq<Byte>
  {
    d.breed + [' '] + DecimalString(d.age) + [' '] + (if d.trainingEasy then "true" else "false") + ['\n']
  }

  /** The texts `format` gives the items of `xs`, one after the other, in
      order. */
  function Concat<T>(format: T -> seq<Byte>, xs: seq<T>): seq<Byte>
    decreases |xs|
  {
    if xs == [] then [] else Concat(format, xs[..|xs| - 1]) + format(xs[|xs| - 1])
  }

  /** The records of `dogs`, in list order, one after the other. */
  function Render(dogs: seq<Dog>): seq<Byte>
  {
    Concat(Record, dogs)
  }

  /** Printing two lists one after the other prints their concatenation. */
  lemma {:induction false} ConcatAppend<T>(format: T -> seq<Byte>, a: seq<T>, b: seq<T>)
    ensures Concat(format, a + b) == Concat(format, a) + Concat(format, b)
    decreases |b|
  {
    if b == [] {
      assert a + b == a;
    } else {
      var b' := b[..|b| - 1];
      assert (a + b)[..|a + b| - 1] == a + b';
      assert (a + b)[|a + b| - 1] == b[|b| - 1];
      ConcatAppend(format, a, b');
    }
  }

  /** Printing a non-empty list prints its first item, then the rest. */
  lemma ConcatFront<T>(format: T -> seq<Byte>, xs: seq<T>)
    requires xs != []
    ensures Concat(format, xs) == format(xs[0]) + Concat(format, xs[1..])
  {
    assert xs == [xs[0]] + xs[1..];
    ConcatAppend(format, [xs[0]], xs[1..]);
    assert [xs[0]][..0] == [];
  }

  /** Printing one more item of `xs` appends that item's text, and never
      goes past the printing of the whole list. */
  lemma ConcatStep<T>(format: T -> seq<Byte>, xs: seq<T>, i: nat)
    requires i < |xs|
    ensures Concat(format, xs[..i + 1]) == Concat(format, xs[..i]) + format(xs[i])
    ensures |Concat(format, xs[..i + 1])| <= |Concat(format, xs)|
  {
    var p := xs[..i + 1];
    assert p[..|p| - 1] == xs[..i];
    assert p[|p| - 1] == xs[i];
    assert p + xs[i + 1..] == xs;
    ConcatAppend(format, p, xs[i + 1..]);
  }

  /** After the oldest record is removed, a read shows what it showed
      before without that record's line. */
  lemma RenderAfterTick(dogs: seq<Dog>)
    requires dogs != []
    ensures Render(dogs) == Record(dogs[0]) + Render(dogs[1..])
  {
    ConcatFront(Record, dogs);
  }

  /** After a record is appended, a read shows what it showed before
      followed by that record's line. */
  lemma RenderAfterStore(dogs: seq<Dog>, d: Dog)
    ensures Render(dogs + [d]) == Render(dogs) + Record(d)
  {
    assert (dogs + [d])[..|dogs|] == dogs;
  }

  /** What the show buffer holds once the text `shown` has been printed:
      the untouched buffer before the first record, and afterwards the text,
      the NUL `snprintf` put after it, and the bytes beyond. */
  function Screen(shown: seq<Byte>, started: bool, stale: seq<Byte>): (r: seq<Byte>)
    requires |shown| < |stale|
    requires !started ==> shown == []
    ensures |r| == |stale| && r[..|shown|] == shown
    ensures started ==> r[|shown|] == NUL && r[|shown| + 1..] == stale[|shown| + 1..]
  {
    if started then shown + [NUL] + stale[|shown| + 1..] else stale
  }

  /** Printing `record` at the end of `shown` shows `shown + record`. */
  lemma ScreenStep(shown: seq<Byte>, record: seq<Byte>, started: bool, stale: seq<Byte>)
    requires |shown| + |record| < |stale|
    requires !started ==> shown == []
    ensures var b := Screen(shown, started, stale);
      b[..|shown|] + record[..Min(|record|, |stale| - 1)] + [NUL] + b[|shown| + Min(|record|, |stale| - 1) + 1..]
      == Screen(shown + record, true, stale)
  {
    var b := Screen(shown, started, stale);
    var e := |shown| + |record| + 1;
    assert record[..Min(|record|, |stale| - 1)] == record;
    assert b[e..] == stale[e..];
  }

  /** Line 79 once: `snprintf(&ibuf[nbytes], 64, ...)` prints `record` after
      the `nbytes` bytes of `shown` already printed. */
  method PrintOne(ibuf: array<Byte>, nbytes: nat, record: seq<Byte>, started: bool,
                  ghost shown: seq<Byte>, ghost stale: seq<Byte>) returns (n: nat)
    requires ibuf.Length == |stale| == DOG_ENTRY_NBYTES
    requires nbytes == |shown| && nbytes + |record| < DOG_ENTRY_NBYTES
    requires !started ==> shown == []
    requires ibuf[..] == Screen(shown, started, stale)
    modifies ibuf
    ensures n == |record| && ibuf[..] == Screen(shown + record, true, stale)
  {
    ScreenStep(shown, record, started, stale);
    n := Snprintf(ibuf, nbytes, DOG_ENTRY_NBYTES, record);
  }

  /** The loop of lines 78 to 82 over a snapshot `entries` of the list:
      each entry is formatted by `format` (the `"%s %d %s\n"` conversion,
      `Record` for the registry) and printed with `snprintf` at the running
      offset `nbytes`, which grows by the length `snprintf` returns.
      `snprintf` is always told 64 bytes whatever the offset, so the records
      must fit in 63 bytes and their NUL. */
  method PrintRecords<T>(format: T -> seq<Byte>, entries: seq<T>, ibuf: array<Byte>, ghost stale: seq<Byte>)
    returns (nbytes: nat)
    requires ibuf.Length == DOG_ENTRY_NBYTES && ibuf[..] == stale
    requires |Concat(format, entries)| < DOG_ENTRY_NBYTES
    modifies ibuf
    ensures nbytes == |Concat(format, entries)|
    ensures ibuf[..] == Screen(Concat(format, entries), entries != [], stale)
  {
    nbytes := 0;
    var i := 0;
    ghost var shown: seq<Byte> := [];
    while i < |entries|
      invariant 0 <= i <= |entries|
      invariant shown == Concat(format, entries[..i])
      invariant nbytes == |shown| <= |Concat(format, entries)|
      invariant ibuf[..] == Screen(shown, i > 0, stale)
    {
      var record := format(entries[i]);
      ConcatStep(format, entries, i);
      var n := PrintOne(ibuf, nbytes, record, i > 0, shown, stale);
      shown := shown + record;
      nbytes := nbytes + n;
      i := i + 1;
    }
    assert entries[..i] == entries;
  }

  // ---------------------------------------------------------------------
  // Writing a record: dog_attr_store

  /** Lines 107 to 127 on the tokens `f` of the copied input: fewer than
      three tokens is `-EINVAL`; otherwise the second token is read with
      `kstrtoint(_, 10)` and the third with `kstrtoint(_, 2)`, the age's
      error is returned before the flag's, a numeral out of `int` range is
      `-ERANGE`, and the record holds the first token, the age, and whether
      the flag is non-zero. Tokens after the third are not looked at. */
  function ParseFields(f: seq<seq<Byte>>): (r: Result<Dog>)
    requires forall i :: 0 <= i < |f| ==> IsCString(f[i])
    ensures |f| < 3 ==> r == Err(EINVAL)
    ensures |f| >= 3 ==>
      (r.Ok? <==> Kstrtox.IsNumeral(f[1], 10) && InS32(Kstrtox.NumeralValue(f[1], 10))
                  && Kstrtox.IsNumeral(f[2], 2) && InS32(Kstrtox.NumeralValue(f[2], 2)))
    ensures r.Ok? ==>
      r.value.breed == f[0] && r.value.age == Kstrtox.NumeralValue(f[1], 10)
      && r.value.trainingEasy == (Kstrtox.NumeralValue(f[2], 2) != 0)
    ensures |f| >= 3 && Kstrtox.Kstrtoint(f[1], 10).Err? ==> r == Err(Kstrtox.Kstrtoint(f[1], 10).error)
    ensures |f| >= 3 && Kstrtox.Kstrtoint(f[1], 10).Ok? && Kstrtox.Kstrtoint(f[2], 2).Err? ==>
              r == Err(Kstrtox.Kstrtoint(f[2], 2).error)
    ensures |f| >= 3 && Kstrtox.IsNumeral(f[1], 10) && !InS32(Kstrtox.NumeralValue(f[1], 10)) ==>
              r == Err(ERANGE)
    ensures |f| >= 3 && Kstrtox.IsNumeral(f[1], 10) && InS32(Kstrtox.NumeralValue(f[1], 10))
            && Kstrtox.IsNumeral(f[2], 2) && !InS32(Kstrtox.NumeralValue(f[2], 2)) ==>
              r == Err(ERANGE)
    ensures r.Err? ==> r.error in {EINVAL, ERANGE}
  {
    if |f| < 3 then Err(EINVAL)
    else
      Kstrtox.KstrtointSpec(f[1], 10);
      Kstrtox.KstrtointSpec(f[2], 2);
      match Kstrtox.Kstrtoint(f[1], 10)
      case Err(e) => Err(e)
      case Ok(age) =>
        match Kstrtox.Kstrtoint(f[2], 2)
        case Err(e) => Err(e)
        case Ok(training) => Ok(Dog(f[0], age, training != 0))
  }

  /** Lines 105 to 115 on the copied input `s`. A record parsed from at most
      `DOG_ENTRY_NBYTES` bytes is well formed. */
  function ParseDog(s: seq<Byte>): (r: Result<Dog>)
    requires IsCString(s)
    ensures r.Ok? && |s| <= DOG_ENTRY_NBYTES ==> WellFormed(r.value)
  {
    ParseFields(Fields(s))
  }

  /** What a store of `buf` ends in: `-ENOMEM` when `kstrndup` fails (line
      102), the parse error, `-ENOMEM` when `kmalloc` fails (line 118), or
      the record to append. */
  function StoreOutcome(buf: seq<Byte>, dupFails: bool, allocFails: bool): Result<Dog>
  {
    if dupFails then Err(ENOMEM)
    else
      match ParseDog(Kstrndup(buf, DOG_ENTRY_NBYTES))
      case Err(e) => Err(e)
      case Ok(d) => if allocFails then Err(ENOMEM) else Ok(d)
  }

  /** The text a writer gives for a record: `"breed,age,flag"` with the age
      in decimal and the flag as the binary numeral 1 or 0. */
  function Encode(d: Dog): seq<Byte>
  {
    d.breed + [','] + DecimalString(d.age) + [','] + [if d.trainingEasy then '1' else '0']
  }

  /** What `%d` prints holds no comma. */
  lemma DecimalHasNoComma(v: int)
    ensures ',' !in DecimalString(v) && IsCString(DecimalString(v))
  {
    DecimalIsNumeral(v);
    var dec := DecimalString(v);
    if v < 0 {
      assert dec[1..] == NatDigits(-v);
    }
  }

  /** Three comma-free tokens joined by commas split back into them. */
  lemma FieldsOfThree(a: seq<Byte>, b: seq<Byte>, c: seq<Byte>)
    requires ',' !in a && ',' !in b && ',' !in c
    ensures Fields(a + [','] + b + [','] + c) == [a, b, c]
  {
    assert a + [','] + b + [','] + c == a + [','] + (b + [','] + c);
    FieldsCons(b, c);
    FieldsSingle(c);
    FieldsCons(a, b + [','] + c);
  }

  /** The three tokens of an encoded record, with or without the newline
      that `echo` adds. */
  lemma FieldsOfEncode(d: Dog, newline: bool)
    requires WellFormed(d)
    ensures var flag := [if d.trainingEasy then '1' else '0'] + (if newline then ['\n'] else []);
      Fields(Encode(d) + (if newline then ['\n'] else [])) == [d.breed, DecimalString(d.age), flag]
  {
    var nl: seq<Byte> := if newline then ['\n'] else [];
    var dec := DecimalString(d.age);
    var flag := [if d.trainingEasy then '1' else '0'] + nl;
    DecimalHasNoComma(d.age);
    assert Encode(d) + nl == d.breed + [','] + dec + [','] + flag;
    FieldsOfThree(d.breed, dec, flag);
  }

  /** An encoded record is a C string. */
  lemma EncodeIsCString(d: Dog, newline: bool)
    requires WellFormed(d)
    ensures IsCString(Encode(d) + (if newline then ['\n'] else []))
  {
    DecimalIsNumeral(d.age);
  }

  /** The flag text `1` or `0`, with or without a newline, reads as that
      binary value. */
  lemma FlagParses(easy: bool, newline: bool)
    ensures Kstrtox.Kstrtoint([if easy then '1' else '0'] + (if newline then ['\n'] else []), 2)
            == Ok(if easy then 1 else 0)
  {
    var c: Byte := if easy then '1' else '0';
    var flag := [c] + (if newline then ['\n'] else []);
    assert Kstrtox.StripNewline(flag) == [c];
    assert Kstrtox.Magnitude(flag) == [c];
    assert [c][..0] == [];
    assert Kstrtox.ValueOf([c], 2) == Kstrtox.DigitValue(c);
    Kstrtox.KstrtointSpec(flag, 2);
  }

  /** Storing the encoding of a record parses back to that record. */
  lemma ParseEncode(d: Dog, newline: bool)
    requires WellFormed(d)
    ensures ParseDog(Encode(d) + (if newline then ['\n'] else [])) == Ok(d)
  {
    var s := Encode(d) + (if newline then ['\n'] else []);
    EncodeIsCString(d, newline);
    FieldsOfEncode(d, newline);
    DecimalRoundTrip(d.age);
    FlagParses(d.trainingEasy, newline);
  }

  /** A write of an encoded record that fits in `DOG_ENTRY_NBYTES` bytes is
      copied whole, splits into three tokens, and stores that record when
      both allocations succeed. */
  lemma StoreEncode(d: Dog, newline: bool)
    requires WellFormed(d)
    requires |Encode(d)| + (if newline then 1 else 0) <= DOG_ENTRY_NBYTES
    ensures var buf := Encode(d) + (if newline then ['\n'] else []);
      Kstrndup(buf, DOG_ENTRY_NBYTES) == buf && |Fields(buf)| == 3
      && StoreOutcome(buf, false, false) == Ok(d)
  {
    var buf := Encode(d) + (if newline then ['\n'] else []);
    EncodeIsCString(d, newline);
    KstrndupShort(buf, DOG_ENTRY_NBYTES);
    FieldsOfEncode(d, newline);
    ParseEncode(d, newline);
  }

  /** The word `true` is not a binary numeral. */
  lemma TrueIsNotBinary()
    ensures Kstrtox.Kstrtoint("true", 2) == Err(EINVAL)
  {
    Kstrtox.NoDigitRejected("true", 2);
  }

  /** The flag must be a binary numeral: a record written with the word
      `true` as its flag is rejected with `-EINVAL`. */
  lemma WordFlagRejected(d: Dog)
    requires WellFormed(d)
    ensures ParseDog(d.breed + [','] + DecimalString(d.age) + [','] + "true") == Err(EINVAL)
  {
    var dec := DecimalString(d.age);
    DecimalHasNoComma(d.age);
    assert ',' !in "true";
    FieldsOfThree(d.breed, dec, "true");
    DecimalRoundTrip(d.age);
    TrueIsNotBinary();
  }

  /** A write with fewer than two commas has fewer than three tokens and is
      rejected with `-EINVAL`. */
  lemma MissingFieldsRejected(s: seq<Byte>)
    requires IsCString(s) && multiset(s)[','] < 2
    ensures ParseDog(s) == Err(EINVAL)
  {
    FieldsCount(s);
  }

  /** A write whose age is a decimal numeral outside the `int` range is
      rejected with `-ERANGE`, whatever its flag. */
  lemma AgeOutOfRangeRejected(breed: seq<Byte>, age: seq<Byte>, flag: seq<Byte>)
    requires IsCString(breed + age + flag)
    requires ',' !in breed && ',' !in age && ',' !in flag
    requires Kstrtox.IsNumeral(age, 10) && !InS32(Kstrtox.NumeralValue(age, 10))
    ensures ParseDog(breed + [','] + age + [','] + flag) == Err(ERANGE)
  {
    assert forall c :: c in breed || c in age || c in flag ==> c in breed + age + flag;
    FieldsOfThree(breed, age, flag);
  }

  /** The `strsep` loop of lines 105 and 106: each token is stored in
      `dog_attr[idx++]` until `strsep` returns NULL. The array has three
      slots, so the caller must not give more than three tokens. */
  method Tokenize(s: seq<Byte>) returns (dogAttr: seq<seq<Byte>>)
    requires |Fields(s)| <= 3
    ensures dogAttr == Fields(s)
  {
    ghost var all := Fields(s);
    var attr := new seq<Byte>[3];
    var idx := 0;
    var p: Option<seq<Byte>> := Some(s);
    var sep := Strsep(p);
    while sep.token.Some?
      invariant sep == Strsep(p)
      invariant idx <= |all| && attr[..idx] == all[..idx]
      invariant Pending(p) == all[idx..]
      decreases |all| - idx
    {
      TakeToken(p.value);
      assert all[idx..] == [sep.token.value] + Pending(sep.rest);
      assert all[idx] == sep.token.value;
      Put(attr, idx, sep.token.value);
      assert all[..idx + 1] == all[..idx] + [all[idx]];
      assert all[idx + 1..] == all[idx..][1..];
      idx := idx + 1;
      p := sep.rest;
      sep := Strsep(p);
    }
    assert idx == |all|;
    dogAttr := attr[..idx];
  }

  /** `dog_attr[idx] = token` on a filled prefix. */
  method Put(attr: array<seq<Byte>>, idx: nat, token: seq<Byte>)
    requires idx < attr.Length
    modifies attr
    ensures attr[..] == old(attr[..])[idx := token]
    ensures attr[..idx + 1] == old(attr[..idx]) + [token]
  {
    attr[idx] := token;
  }

  /** The token `strsep` yields from `s` comes off the front of the pending
      ones. */
  lemma TakeToken(s: seq<Byte>)
    ensures Strsep(Some(s)).token == Some(Fields(s)[0])
    ensures Pending(Some(s)) == [Fields(s)[0]] + Pending(Strsep(Some(s)).rest)
  {
    StrsepStep(s);
    var f := Fields(s);
    assert f == [f[0]] + f[1..];
  }

  // ---------------------------------------------------------------------
  // Removing the oldest record: timer_remove_dog

  /** An entry pointer as `list_first_entry` and `list_first_entry_or_null`
      produce it: NULL, the list head itself cast to an entry, or a real
      entry at a position of the list. */
  datatype EntryPtr = Null | HeadAsEntry | Entry(index: nat)

  /** `list_first_entry(&dog_list, struct dog, list)` at line 170: on an
      empty list it yields the list head cast to an entry, never NULL, so the
      test at line 171 always passes. */
  function ListFirstEntry(dogs: seq<Dog>): (p: EntryPtr)
    ensures p != Null
    ensures p == HeadAsEntry <==> dogs == []
    ensures p.Entry? ==> p.index == 0 < |dogs|
  {
    if dogs == [] then HeadAsEntry else Entry(0)
  }

  /** `list_first_entry_or_null`: NULL exactly on an empty list. */
  function ListFirstEntryOrNull(dogs: seq<Dog>): (p: EntryPtr)
    ensures p == Null <==> dogs == []
    ensures p != Null ==> p == Entry(0) && |dogs| > 0
  {
    if dogs == [] then Null else Entry(0)
  }

  // ---------------------------------------------------------------------
  // The module's global state

  /** `dog_list` and `dog_list_size`. The ghost fields record every record
      ever appended and every record handed to `kfree_rcu`, in order. */
  class DogRegistry {
    var dogList: seq<Dog>
    var dogListSize: nat
    ghost var stored: seq<Dog>
    ghost var reclaimed: seq<Dog>

    /** Records leave in the order they came: those handed to deferred
        freeing, followed by those still listed, are exactly those ever
        stored, each once. The counter is a `size_t`. */
    ghost predicate Valid()
      reads this
    {
      stored == reclaimed + dogList
      && dogListSize < SIZE_T_MODULUS
      && forall i :: 0 <= i < |dogList| ==> WellFormed(dogList[i])
    }

    /** What the comment at lines 62 and 63 asks of `dog_list_size`: that it
        is the number of listed records. */
    predicate CountsLive()
      reads this
    {
      dogListSize == |dogList| % SIZE_T_MODULUS
    }

    /** `LIST_HEAD(dog_list)` and the zero-initialised `dog_list_size`. */
    constructor ()
      ensures Valid() && CountsLive()
      ensures dogList == [] && dogListSize == 0 && stored == [] && reclaimed == []
    {
      dogList := [];
      dogListSize := 0;
      stored := [];
      reclaimed := [];
    }

    /** `dog_attr_store(..., buf, count)` with `count == |buf|`. `dupFails`
        and `allocFails` say whether `kstrndup` and `kmalloc` return NULL.
        Only the first `DOG_ENTRY_NBYTES` bytes are parsed; on success the
        record goes to the tail, the counter grows by one, and the whole
        `count` is returned. Every error leaves the state as it was. */
    method Store(buf: seq<Byte>, dupFails: bool, allocFails: bool) returns (ret: int)
      requires Valid()
      requires !dupFails ==> |Fields(Kstrndup(buf, DOG_ENTRY_NBYTES))| <= 3
      modifies this
      ensures Valid()
      ensures match StoreOutcome(buf, dupFails, allocFails)
              case Ok(d) =>
                ret == |buf| && dogList == old(dogList) + [d]
                && dogListSize == (old(dogListSize) + 1) % SIZE_T_MODULUS
                && stored == old(stored) + [d] && reclaimed == old(reclaimed)
              case Err(e) =>
                ret == e.Code() && dogList == old(dogList) && dogListSize == old(dogListSize)
                && stored == old(stored) && reclaimed == old(reclaimed)
      ensures old(CountsLive()) ==> CountsLive()
    {
      if dupFails {
        return ENOMEM.Code();
      }
      var ibuf := Kstrndup(buf, DOG_ENTRY_NBYTES);
      var dogAttr := Tokenize(ibuf);
      var parsed := ParseFields(dogAttr);
      if parsed.Err? {
        return parsed.error.Code();
      }
      if allocFails {
        return ENOMEM.Code();
      }
      var entry := parsed.value;
      AddTail(entry);
      ret := |buf|;
    }

    /** Lines 129 to 132, under `list_update_lock`: `list_add_tail_rcu`
        puts the record at the tail and `dog_list_size` grows by one. */
    method AddTail(entry: Dog)
      requires Valid() && WellFormed(entry)
      modifies this
      ensures Valid()
      ensures dogList == old(dogList) + [entry]
      ensures dogListSize == (old(dogListSize) + 1) % SIZE_T_MODULUS
      ensures stored == old(stored) + [entry] && reclaimed == old(reclaimed)
      ensures old(CountsLive()) ==> CountsLive()
    {
      SizeTStep(|dogList|);
      dogList := dogList + [entry];
      dogListSize := (dogListSize + 1) % SIZE_T_MODULUS;
      stored := stored + [entry];
    }

    /** `dog_attr_show`: the records are printed into a local 64-byte
        buffer, all of which is copied out, and the printed length is
        returned. `stale` is what that uninitialised buffer held. The list
        is read, never changed. */
    method Show(stale: seq<Byte>) returns (out: seq<Byte>, nbytes: nat)
      requires |stale| == DOG_ENTRY_NBYTES
      requires |Render(dogList)| < DOG_ENTRY_NBYTES
      ensures |out| == DOG_ENTRY_NBYTES && nbytes == |Render(dogList)|
      ensures out[..nbytes] == Render(dogList)
      ensures dogList != [] ==> out[nbytes] == NUL && out[nbytes + 1..] == stale[nbytes + 1..]
      ensures dogList == [] ==> out == stale
    {
      var ibuf := new Byte[DOG_ENTRY_NBYTES](k requires 0 <= k < DOG_ENTRY_NBYTES => stale[k]);
      assert ibuf[..] == stale;
      nbytes := PrintRecords(Record, dogList, ibuf, stale);
      out := ibuf[..];
    }

    /** `timer_remove_dog` as written: the first entry is unlinked and handed
        to `kfree_rcu`; the counter is left alone. The list must not be
        empty, since the test at line 171 cannot detect an empty one. */
    method TimerRemoveDog()
      requires Valid()
      requires dogList != []
      modifies this
      ensures Valid()
      ensures dogList == old(dogList)[1..] && dogListSize == old(dogListSize)
      ensures stored == old(stored) && reclaimed == old(reclaimed) + [old(dogList)[0]]
    {
      var entry := ListFirstEntry(dogList);
      if entry != Null {
        var removed := dogList[0];
        dogList := dogList[1..];
        reclaimed := reclaimed + [removed];
      }
    }

    /** `timer_remove_dog` as its comments intend it: nothing happens on an
        empty list, and a removal also takes one off the counter, so the
        counter keeps counting the listed records. */
    method TimerRemoveDogChecked()
      requires Valid()
      modifies this
      ensures Valid()
      ensures old(dogList) == [] ==>
                dogList == [] && dogListSize == old(dogListSize)
                && stored == old(stored) && reclaimed == old(reclaimed)
      ensures old(dogList) != [] ==>
                dogList == old(dogList)[1..]
                && dogListSize == (old(dogListSize) + SIZE_T_MODULUS - 1) % SIZE_T_MODULUS
                && stored == old(stored) && reclaimed == old(reclaimed) + [old(dogList)[0]]
      ensures old(CountsLive()) ==> CountsLive()
    {
      var entry := ListFirstEntryOrNull(dogList);
      if entry != Null {
        var removed := dogList[0];
        dogList := dogList[1..];
        dogListSize := (dogListSize + SIZE_T_MODULUS - 1) % SIZE_T_MODULUS;
        reclaimed := reclaimed + [removed];
      }
    }
  }

  // ---------------------------------------------------------------------
  // Runs of the registry

  /** Two records written one after the other leave in the order they were
      written: after one tick only the second is listed, and the first has
      been handed to deferred freeing. */
  method FirstInFirstOut(a: Dog, b: Dog) returns (listed: seq<Dog>, ghost freed: seq<Dog>, ret: int)
    requires WellFormed(a) && WellFormed(b)
    requires |Encode(a)| < DOG_ENTRY_NBYTES && |Encode(b)| < DOG_ENTRY_NBYTES
    ensures listed == [b] && freed == [a]
    ensures ret == |Encode(b)| + 1
  {
    var r := new DogRegistry();
    StoreEncode(a, true);
    StoreEncode(b, true);
    ret := r.Store(Encode(a) + ['\n'], false, false);
    ret := r.Store(Encode(b) + ['\n'], false, false);
    r.TimerRemoveDog();
    listed := r.dogList;
    freed := r.reclaimed;
  }

  /** As written, a tick leaves `dog_list_size` at 1 although no record is
      listed any more. */
  method CounterDriftAsWritten(d: Dog) returns (counter: nat, length: nat)
    requires WellFormed(d) && |Encode(d)| < DOG_ENTRY_NBYTES
    ensures counter == 1 && length == 0
  {
    var r := new DogRegistry();
    StoreEncode(d, true);
    var ret := r.Store(Encode(d) + ['\n'], false, false);
    assert r.dogListSize == 1 by {
      assert (0 + 1) % SIZE_T_MODULUS == 1;
    }
    r.TimerRemoveDog();
    counter, length := r.dogListSize, |r.dogList|;
  }

  /** With the corrected tick the counter follows the list back to 0, and a
      further tick on the empty list changes nothing. */
  method CounterTracksCorrected(d: Dog) returns (counter: nat, length: nat)
    requires WellFormed(d) && |Encode(d)| < DOG_ENTRY_NBYTES
    ensures counter == 0 && length == 0
  {
    var r := new DogRegistry();
    StoreEncode(d, true);
    var ret := r.Store(Encode(d) + ['\n'], false, false);
    r.TimerRemoveDogChecked();
    r.TimerRemoveDogChecked();
    counter, length := r.dogListSize, |r.dogList|;
  }
}
