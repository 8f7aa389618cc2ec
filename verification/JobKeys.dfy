/**
 The keys of the job object store: how a job's objects are named, how a listing is
 read back, and why the names keep jobs apart and events in order.
 */
module JobKeys {
  import opened Options
  import opened Strings

  datatype JobRef = JobRef(sproutID: string, jid: string)

  datatype Kind = CreatedObject | MetaObject | EventObject

  const JOB_KEY_PREFIX := "jobs/"
  const CREATED_OBJECT := "created.jsonl"
  const META_OBJECT := "meta.json"
  const EVENTS_DIR := "events/"
  const LOG_EXT := ".jsonl"

  /** One past the largest 64-bit time in nanoseconds. */
  const TIME_LIMIT: int := 0x8000_0000_0000_0000

  /** Usable as one segment of a key. */
  predicate ValidKeySegment(id: string) {
    id != "" && id != "." && id != ".." && '/' !in id
  }

  predicate ValidRef(ref: JobRef) {
    ValidKeySegment(ref.sproutID) && ValidKeySegment(ref.jid)
  }

  function SproutPrefix(sproutID: string): string {
    JOB_KEY_PREFIX + sproutID + "/"
  }

  function JobPrefix(ref: JobRef): string {
    SproutPrefix(ref.sproutID) + ref.jid + "/"
  }

  function CreatedKey(ref: JobRef): string {
    JobPrefix(ref) + CREATED_OBJECT
  }

  function MetaKey(ref: JobRef): string {
    JobPrefix(ref) + META_OBJECT
  }

  // ----- Decimal times -----

  function DigitChar(d: nat): char
    requires d < 10
  {
    '0' + d as char
  }

  /** `n` in decimal, zero-padded to `width` digits. */
  function Padded(n: nat, width: nat): (s: string)
    ensures |s| == width
    ensures '-' !in s && '/' !in s
  {
    if width == 0 then "" else Padded(n / 10, width - 1) + [DigitChar(n % 10)]
  }

  predicate IsDigits(s: string) {
    forall i :: 0 <= i < |s| ==> '0' <= s[i] <= '9'
  }

  function Value(s: string): nat
    requires IsDigits(s)
  {
    if s == "" then 0 else 10 * Value(s[..|s| - 1]) + (s[|s| - 1] - '0') as nat
  }

  /** Decimal text as a signed 64-bit number, if it is one. */
  function ParseInt(s: string): Option<int> {
    if s == "" then None
    else
      var negative := s[0] == '-';
      var digits := if s[0] == '-' || s[0] == '+' then s[1..] else s;
      if digits == "" || !IsDigits(digits) then None
      else
        var n: int := Value(digits);
        if negative then (if n <= TIME_LIMIT then Some(-n) else None)
        else if n < TIME_LIMIT then Some(n) else None
  }

  function Pow10(w: nat): nat {
    if w == 0 then 1 else 10 * Pow10(w - 1)
  }

  lemma {:induction false} PaddedValue(n: nat, width: nat)
    requires n < Pow10(width)
    ensures IsDigits(Padded(n, width)) && Value(Padded(n, width)) == n
  {
    if width > 0 {
      PaddedValue(n / 10, width - 1);
      var s := Padded(n, width);
      assert s[..|s| - 1] == Padded(n / 10, width - 1);
    }
  }

  lemma NineteenDigits()
    ensures TIME_LIMIT < Pow10(19) < Pow10(20)
  {
    assert Pow10(4) == 10_000;
    assert Pow10(9) == 1_000_000_000;
    assert Pow10(14) == 100_000_000_000_000;
    assert Pow10(19) == 10_000_000_000_000_000_000;
  }

  // ----- Event keys -----

  /** Nanoseconds since 1970, zero-padded to twenty places, the sign of an earlier
      time being one of them. */
  function Stamp(ns: int): (text: string)
    ensures |text| == 20
  {
    if ns >= 0 then Padded(ns, 20) else "-" + Padded(-ns, 19)
  }

  function EventName(ns: int, suffix: string): string {
    Stamp(ns) + ("-" + suffix + LOG_EXT)
  }

  /** The object of an event received at `ns`; `suffix` is drawn at random. */
  function EventKey(ref: JobRef, ns: int, suffix: string): string {
    JobPrefix(ref) + EVENTS_DIR + EventName(ns, suffix)
  }

  /** The part of a key after its last slash. */
  function BaseName(key: string): (name: string)
    ensures '/' !in name
  {
    if key == "" then ""
    else if key[|key| - 1] == '/' then ""
    else BaseName(key[..|key| - 1]) + [key[|key| - 1]]
  }

  /** The text before and after the first `c`. */
  function Cut(s: string, c: char): (r: Option<(string, string)>)
    ensures r.None? <==> c !in s
    ensures r.Some? ==> s == r.value.0 + [c] + r.value.1 && c !in r.value.0
  {
    if s == "" then None
    else if s[0] == c then Some(("", s[1..]))
    else
      match Cut(s[1..], c)
      case None => None
      case Some((a, b)) => Some(([s[0]] + a, b))
  }

  function EventTime(key: string): Option<int> {
    match Cut(BaseName(key), '-')
    case None => None
    case Some((digits, _)) => ParseInt(digits)
  }

  lemma {:induction false} CutAt(a: string, c: char, b: string)
    requires c !in a
    ensures Cut(a + [c] + b, c) == Some((a, b))
  {
    var s := a + [c] + b;
    if a == "" {
      assert s[1..] == b;
    } else {
      assert s[1..] == a[1..] + [c] + b;
      CutAt(a[1..], c, b);
      assert a == [s[0]] + a[1..];
    }
  }

  lemma {:induction false} BaseNameAfter(dir: string, name: string)
    requires '/' !in name && dir != "" && dir[|dir| - 1] == '/'
    ensures BaseName(dir + name) == name
    decreases |name|
  {
    var key := dir + name;
    if name == "" {
      assert key == dir;
    } else {
      assert key[..|key| - 1] == dir + name[..|name| - 1];
      BaseNameAfter(dir, name[..|name| - 1]);
    }
  }

  lemma StampDigits(ns: int)
    requires -TIME_LIMIT <= ns < TIME_LIMIT
    ensures ns >= 0 ==> IsDigits(Stamp(ns)) && Value(Stamp(ns)) == ns
    ensures ns < 0 ==> IsDigits(Stamp(ns)[1..])
  {
    NineteenDigits();
    if ns >= 0 {
      PaddedValue(ns, 20);
    } else {
      PaddedValue(-ns, 19);
    }
  }

  /** The receive time is recovered from the key if it is not before 1970; the sign
      of an earlier one ends the digits before they begin, and no time is read. */
  lemma EventTimeInverts(ref: JobRef, ns: int, suffix: string)
    requires -TIME_LIMIT <= ns < TIME_LIMIT && '/' !in suffix
    ensures EventTime(EventKey(ref, ns, suffix)) == if ns >= 0 then Some(ns) else None
  {
    EventBaseName(ref, ns, suffix);
    CutName(ns, suffix);
    StampParses(ns);
  }

  lemma EventBaseName(ref: JobRef, ns: int, suffix: string)
    requires '/' !in suffix
    ensures BaseName(EventKey(ref, ns, suffix)) == EventName(ns, suffix)
  {
    var dir := JobPrefix(ref) + EVENTS_DIR;
    assert dir[|dir| - 1] == '/';
    NameHasNoSlash(ns, suffix);
    BaseNameAfter(dir, EventName(ns, suffix));
  }

  lemma StampParses(ns: int)
    requires -TIME_LIMIT <= ns < TIME_LIMIT
    ensures ns >= 0 ==> ParseInt(Stamp(ns)) == Some(ns)
  {
    StampDigits(ns);
  }

  lemma NameHasNoSlash(ns: int, suffix: string)
    requires '/' !in suffix
    ensures '/' !in EventName(ns, suffix)
  {
    assert '/' !in Stamp(ns);
  }

  lemma CutName(ns: int, suffix: string)
    ensures Cut(EventName(ns, suffix), '-').Some?
    ensures Cut(EventName(ns, suffix), '-').value.0 == if ns >= 0 then Stamp(ns) else ""
  {
    var name, end := EventName(ns, suffix), suffix + LOG_EXT;
    if ns >= 0 {
      assert name == Stamp(ns) + ['-'] + end;
      CutAt(Stamp(ns), '-', end);
    } else {
      assert name[0] == '-';
    }
  }

  // ----- Order -----

  /** Byte order, as listings and sorting use it. */
  predicate LexLeq(a: string, b: string) {
    a == "" || (b != "" && (a[0] < b[0] || (a[0] == b[0] && LexLeq(a[1..], b[1..]))))
  }

  lemma {:induction false} LexTotal(a: string, b: string)
    ensures LexLeq(a, b) || LexLeq(b, a)
  {
    if a != "" && b != "" {
      LexTotal(a[1..], b[1..]);
    }
  }

  lemma {:induction false} LexTransitive(a: string, b: string, c: string)
    requires LexLeq(a, b) && LexLeq(b, c)
    ensures LexLeq(a, c)
  {
    if a != "" && b != "" && c != "" && a[0] == b[0] == c[0] {
      LexTransitive(a[1..], b[1..], c[1..]);
    }
  }

  lemma {:induction false} LexCommonPrefix(p: string, a: string, b: string)
    ensures LexLeq(p + a, p + b) <==> LexLeq(a, b)
  {
    if p == "" {
      assert p + a == a && p + b == b;
    } else {
      assert (p + a)[1..] == p[1..] + a && (p + b)[1..] == p[1..] + b;
      LexCommonPrefix(p[1..], a, b);
    }
  }

  /** The first difference decides, and a text comes before those it begins. */
  lemma LexDecides(p: string, c: char, a: string, d: char, b: string)
    ensures c < d ==> LexLeq(p + ([c] + a), p + ([d] + b)) && !LexLeq(p + ([d] + b), p + ([c] + a))
    ensures LexLeq(p, p + a)
    ensures a != "" ==> !LexLeq(p + a, p)
  {
    LexCommonPrefix(p, [c] + a, [d] + b);
    LexCommonPrefix(p, [d] + b, [c] + a);
    LexCommonPrefix(p, "", a);
    LexCommonPrefix(p, a, "");
    assert p + "" == p;
  }

  /** On texts of equal length the leading parts decide first. */
  lemma {:induction false} LexSameLength(a: string, x: string, b: string, y: string)
    requires |a| == |b| && LexLeq(a + x, b + y)
    ensures LexLeq(a, b)
  {
    if a != "" {
      assert (a + x)[1..] == a[1..] + x && (b + y)[1..] == b[1..] + y;
      if a[0] == b[0] {
        LexSameLength(a[1..], x, b[1..], y);
      }
    }
  }

  /** Zero-padded decimals sort as the numbers do. */
  lemma {:induction false} PaddedOrder(m: nat, n: nat, width: nat)
    requires m < Pow10(width) && n < Pow10(width) && LexLeq(Padded(m, width), Padded(n, width))
    ensures m <= n
  {
    if width > 0 {
      var a, b := Padded(m / 10, width - 1), Padded(n / 10, width - 1);
      var x, y := [DigitChar(m % 10)], [DigitChar(n % 10)];
      LexSameLength(a, x, b, y);
      PaddedOrder(m / 10, n / 10, width - 1);
      if m / 10 == n / 10 {
        LexCommonPrefix(a, x, y);
      }
    }
  }

  /** Stamps sort as times do, except that those before 1970 sort backwards. */
  lemma StampOrder(m: int, n: int)
    requires -TIME_LIMIT <= m < TIME_LIMIT && -TIME_LIMIT <= n < TIME_LIMIT
    requires LexLeq(Stamp(m), Stamp(n))
    ensures if m < 0 && n < 0 then n <= m else m <= n
  {
    NineteenDigits();
    StampDigits(m);
    StampDigits(n);
    if m >= 0 && n >= 0 {
      PaddedOrder(m, n, 20);
    } else if m < 0 && n < 0 {
      LexCommonPrefix("-", Padded(-m, 19), Padded(-n, 19));
      PaddedOrder(-m, -n, 19);
    }
  }

  /** Event keys of one job, in key order, are in receive-time order, except that
      among those before 1970 the order is the reverse. */
  lemma EventKeysSortByTime(ref: JobRef, m: int, x: string, n: int, y: string)
    requires -TIME_LIMIT <= m < TIME_LIMIT && -TIME_LIMIT <= n < TIME_LIMIT
    requires LexLeq(EventKey(ref, m, x), EventKey(ref, n, y))
    ensures if m < 0 && n < 0 then n <= m else m <= n
  {
    LexCommonPrefix(JobPrefix(ref) + EVENTS_DIR, EventName(m, x), EventName(n, y));
    LexSameLength(Stamp(m), "-" + x + LOG_EXT, Stamp(n), "-" + y + LOG_EXT);
    StampOrder(m, n);
  }

  // ----- Reading a key back -----

  predicate IsEventName(name: string) {
    HasPrefix(name, EVENTS_DIR) && HasSuffix(name, LOG_EXT) && '/' !in name[|EVENTS_DIR|..]
  }

  function KindOf(name: string): Option<Kind> {
    if name == CREATED_OBJECT then Some(CreatedObject)
    else if name == META_OBJECT then Some(MetaObject)
    else if IsEventName(name) then Some(EventObject)
    else None
  }

  lemma Assemble(tail: string, sproutID: string, rest: string, jid: string, name: string)
    requires tail == sproutID + ['/'] + rest && rest == jid + ['/'] + name
    ensures JOB_KEY_PREFIX + tail == JobPrefix(JobRef(sproutID, jid)) + name
  {
    var p := JOB_KEY_PREFIX + sproutID + "/";
    assert JOB_KEY_PREFIX + tail == p + rest;
    assert p + rest == p + jid + "/" + name;
  }

  /** A key's three parts after the common prefix: sprout, job, and the rest. */
  function SplitKey(key: string): (r: Option<(JobRef, string)>)
    ensures r.Some? ==> key == JobPrefix(r.value.0) + r.value.1
  {
    if !HasPrefix(key, JOB_KEY_PREFIX) then None
    else
      var tail := key[|JOB_KEY_PREFIX|..];
      match Cut(tail, '/')
      case None => None
      case Some((sproutID, rest)) =>
        match Cut(rest, '/')
        case None => None
        case Some((jid, name)) =>
          Assemble(tail, sproutID, rest, jid, name);
          assert key == JOB_KEY_PREFIX + tail;
          Some((JobRef(sproutID, jid), name))
  }

  /** The job and kind of object a key names, or nothing if it fits no layout. */
  function ParseKey(key: string): Option<(JobRef, Kind)> {
    match SplitKey(key)
    case None => None
    case Some((ref, name)) =>
      if !ValidRef(ref) || KindOf(name).None? then None else Some((ref, KindOf(name).value))
  }

  ghost predicate IsEventOf(ref: JobRef, key: string) {
    exists name :: IsEventName(name) && key == JobPrefix(ref) + name
  }

  lemma SplitUnderPrefix(ref: JobRef, name: string)
    requires ValidRef(ref)
    ensures SplitKey(JobPrefix(ref) + name) == Some((ref, name))
  {
    var key := JobPrefix(ref) + name;
    var rest := ref.jid + ['/'] + name;
    assert key == JOB_KEY_PREFIX + (ref.sproutID + ['/'] + rest);
    assert key[|JOB_KEY_PREFIX|..] == ref.sproutID + ['/'] + rest;
    CutAt(ref.sproutID, '/', rest);
    CutAt(ref.jid, '/', name);
  }

  /** Under a job's prefix, what follows decides what the key is. */
  lemma ParseUnderPrefix(ref: JobRef, name: string)
    requires ValidRef(ref)
    ensures ParseKey(JobPrefix(ref) + name) == if KindOf(name).None? then None else Some((ref, KindOf(name).value))
  {
    SplitUnderPrefix(ref, name);
  }

  lemma EventNamesAreEvents(name: string)
    requires IsEventName(name)
    ensures KindOf(name) == Some(EventObject)
  {
    assert name[..|EVENTS_DIR|][0] == 'e';
  }

  /** Reading a key back is exact: it yields a job's object if and only if the key
      is the one that object is stored under. */
  lemma ParseKeyExact(key: string, ref: JobRef)
    requires ValidRef(ref)
    ensures ParseKey(key) == Some((ref, CreatedObject)) <==> key == CreatedKey(ref)
    ensures ParseKey(key) == Some((ref, MetaObject)) <==> key == MetaKey(ref)
    ensures ParseKey(key) == Some((ref, EventObject)) <==> IsEventOf(ref, key)
  {
    ParseUnderPrefix(ref, CREATED_OBJECT);
    ParseUnderPrefix(ref, META_OBJECT);
    if IsEventOf(ref, key) {
      var name :| IsEventName(name) && key == JobPrefix(ref) + name;
      EventNamesAreEvents(name);
      ParseUnderPrefix(ref, name);
    }
  }

  /** An event's key is read back as an event of its job. */
  lemma EventKeyParses(ref: JobRef, ns: int, suffix: string)
    requires ValidRef(ref) && '/' !in suffix
    ensures ParseKey(EventKey(ref, ns, suffix)) == Some((ref, EventObject))
  {
    var name := EVENTS_DIR + EventName(ns, suffix);
    assert EventKey(ref, ns, suffix) == JobPrefix(ref) + name;
    assert name[|EVENTS_DIR|..] == EventName(ns, suffix);
    NameHasNoSlash(ns, suffix);
    assert name[|name| - |LOG_EXT|..] == LOG_EXT;
    EventNamesAreEvents(name);
    ParseUnderPrefix(ref, name);
  }

  /** No job's prefix matches another job's key. */
  lemma PrefixesKeepJobsApart(a: JobRef, b: JobRef, name: string)
    requires ValidRef(a) && ValidRef(b) && HasPrefix(JobPrefix(b) + name, JobPrefix(a))
    ensures a == b
  {
    var key := JobPrefix(b) + name;
    var rest := key[|JobPrefix(a)|..];
    assert key == JobPrefix(a) + rest;
    SplitUnderPrefix(a, rest);
    SplitUnderPrefix(b, name);
  }

  // ----- The layout in full -----

  /** An event's name is a stem without a slash in the events directory, with the
      log extension. */
  lemma EventNamesInFull(name: string)
    ensures IsEventName(name) <==> exists stem :: '/' !in stem && name == "events/" + stem + ".jsonl"
  {
    if IsEventName(name) {
      var rest := name[7..];
      assert name == "events/" + rest;
      LongEnough(name);
      var stem := rest[..|rest| - 6];
      assert rest == stem + ".jsonl";
      assert name == "events/" + stem + ".jsonl";
    }
    if stem :| '/' !in stem && name == "events/" + stem + ".jsonl" {
      assert name[..7] == "events/" && name[|name| - 6..] == ".jsonl";
      assert name[7..] == stem + ".jsonl";
    }
  }

  /** The directory and the extension do not overlap. */
  lemma LongEnough(name: string)
    requires IsEventName(name)
    ensures |name| >= 13
  {
    assert name[6] == name[..7][6] == '/';
    forall i | |name| - 6 <= i < |name| ensures name[i] != '/' {
      assert name[i] == name[|name| - 6..][i - (|name| - 6)] == LOG_EXT[i - (|name| - 6)];
    }
  }

  lemma KeysInFull(ref: JobRef, ns: int, suffix: string)
    ensures CreatedKey(ref) == "jobs/" + ref.sproutID + "/" + ref.jid + "/created.jsonl"
    ensures MetaKey(ref) == "jobs/" + ref.sproutID + "/" + ref.jid + "/meta.json"
    ensures EventKey(ref, ns, suffix) == "jobs/" + ref.sproutID + "/" + ref.jid + "/events/" + Stamp(ns) + "-" + suffix + ".jsonl"
  {
  }

  /** Which keys are read, letter by letter: those under any two names that are not
      empty, not a dot or two, and hold no slash. */
  lemma ReadInFull(key: string, sproutID: string, jid: string)
    ensures ParseKey(key) == Some((JobRef(sproutID, jid), CreatedObject)) <==>
            Nameable(sproutID) && Nameable(jid) && key == "jobs/" + sproutID + "/" + jid + "/created.jsonl"
    ensures ParseKey(key) == Some((JobRef(sproutID, jid), MetaObject)) <==>
            Nameable(sproutID) && Nameable(jid) && key == "jobs/" + sproutID + "/" + jid + "/meta.json"
    ensures ParseKey(key) == Some((JobRef(sproutID, jid), EventObject)) <==>
            && Nameable(sproutID) && Nameable(jid)
            && exists stem :: '/' !in stem && key == "jobs/" + sproutID + "/" + jid + "/events/" + stem + ".jsonl"
  {
    var ref := JobRef(sproutID, jid);
    KeysInFull(ref, 0, "");
    NameableExactly(sproutID);
    NameableExactly(jid);
    if ValidRef(ref) {
      ParseKeyExact(key, ref);
      EventsInFull(ref, key);
    }
  }

  /** Usable in a key: no empty text, no dot or two, no slash. */
  ghost predicate Nameable(id: string) {
    id !in {"", ".", ".."} && forall i :: 0 <= i < |id| ==> id[i] != '/'
  }

  lemma NameableExactly(id: string)
    ensures Nameable(id) <==> ValidKeySegment(id)
  {
  }

  lemma EventsInFull(ref: JobRef, key: string)
    ensures IsEventOf(ref, key) <==>
            exists stem :: '/' !in stem && key == "jobs/" + ref.sproutID + "/" + ref.jid + "/events/" + stem + ".jsonl"
  {
    var dir := "jobs/" + ref.sproutID + "/" + ref.jid + "/";
    assert JobPrefix(ref) == dir;
    if IsEventOf(ref, key) {
      var name :| IsEventName(name) && key == JobPrefix(ref) + name;
      EventNamesInFull(name);
      var stem :| '/' !in stem && name == "events/" + stem + ".jsonl";
      assert key == "jobs/" + ref.sproutID + "/" + ref.jid + "/events/" + stem + ".jsonl";
    }
    if stem :| '/' !in stem && key == "jobs/" + ref.sproutID + "/" + ref.jid + "/events/" + stem + ".jsonl" {
      var name := "events/" + stem + ".jsonl";
      EventNamesInFull(name);
      assert key == JobPrefix(ref) + name;
    }
  }
}
