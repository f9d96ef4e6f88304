/** The subscription command of a client, and what takes its subscriptions back.

    `ws_subscription` copies the list of channels into `subscriptions_data` and cuts it there into
    C strings, one for each channel; `subscriptions` holds pointers to them, here offsets.
    `un_subscription` reads the names back through those pointers, up to the first empty slot, and
    clears 32 bytes of the pointer array, which are its first four entries: later slots keep
    pointing into text that the next command overwrites.  Neither the scan nor the taking back
    always stays inside the text; both have results that say when they leave it.
 */
module Subscription {
  const MAX_PIPES := 32
  const NAME_LEN := 64
  const DATA_LEN := MAX_PIPES * (NAME_LEN + 4)
  const CLEARED_SLOTS := 4       // 32 bytes of 8-byte pointers
  const NUL: char := '\0'

  datatype Slot = Empty | Name(offset: nat)

  type Text = s: seq<char> | |s| == DATA_LEN witness seq(DATA_LEN, _ => NUL)
  type Slots = s: seq<Slot> | |s| == MAX_PIPES witness seq(MAX_PIPES, _ => Empty)

  predicate AZ09(c: char) {
    '0' <= c <= '9' || 'A' <= c <= 'Z' || 'a' <= c <= 'z' || c == '-' || c == '_'
  }

  function Letters(first: char, n: nat): string
    requires first as int + n <= 128
  {
    seq(n, i requires 0 <= i < n => (first as int + i) as char)
  }

  // The characters of a name: 26 letters twice, ten digits, '-' and '_'.
  lemma NameCharacters(c: char)
    ensures AZ09(c) <==> c in Letters('A', 26) + Letters('a', 26) + Letters('0', 10) + "-_"
  {
    if 'A' <= c <= 'Z' {
      assert Letters('A', 26)[c as int - 'A' as int] == c;
    } else if 'a' <= c <= 'z' {
      assert Letters('a', 26)[c as int - 'a' as int] == c;
    } else if '0' <= c <= '9' {
      assert Letters('0', 10)[c as int - '0' as int] == c;
    }
  }

  // A C string that starts at `offset` ends inside the text.
  predicate EndsInside(data: seq<char>, offset: nat) {
    offset < |data| && NUL in data[offset..]
  }

  // The C string that starts at `offset`, when it ends inside the text.
  function CStr(data: seq<char>, offset: nat): (s: string)
    ensures NUL !in s
    decreases |data| - offset
  {
    if offset >= |data| || data[offset] == NUL then [] else [data[offset]] + CStr(data, offset + 1)
  }

  // ----- the channels of one server -----

  datatype Key = Key(dev: int, name: string)

  type Pipes = map<Key, seq<int>>

  function Subscribers(pipes: Pipes, k: Key): seq<int> {
    if k in pipes then pipes[k] else []
  }

  // `Pipe::insert` puts the new subscriber in front; `getPipe` creates a missing channel.
  function Insert(pipes: Pipes, k: Key, fd: int): Pipes {
    pipes[k := [fd] + Subscribers(pipes, k)]
  }

  function WithoutFirst(xs: seq<int>, x: int): seq<int> {
    if xs == [] then [] else if xs[0] == x then xs[1..] else [xs[0]] + WithoutFirst(xs[1..], x)
  }

  function Erase(pipes: Pipes, k: Key, fd: int): Pipes {
    if k in pipes then pipes[k := WithoutFirst(pipes[k], fd)] else pipes
  }

  // Which connections of which developer the server knows.
  type Live = (int, int) -> bool

  function OnlyLive(xs: seq<int>, dev: int, live: Live): seq<int> {
    if xs == [] then []
    else if live(xs[0], dev) then [xs[0]] + OnlyLive(xs[1..], dev, live)
    else OnlyLive(xs[1..], dev, live)
  }

  // What a publication leaves of its channel.
  function Published(pipes: Pipes, k: Key, live: Live): Pipes {
    if k in pipes then pipes[k := OnlyLive(pipes[k], k.dev, live)] else pipes
  }

  predicate IsTrack(name: string) {
    "track_" <= name
  }

  predicate IsPrivate(name: string) {
    "private_" <= name
  }

  // ----- taking subscriptions back -----

  // The names in the slots from `i` on, up to the first empty one.
  function Visited(slots: Slots, data: Text, i: nat): seq<string>
    requires i <= MAX_PIPES
    decreases MAX_PIPES - i
  {
    if i == MAX_PIPES || slots[i].Empty? then []
    else [CStr(data, slots[i].offset)] + Visited(slots, data, i + 1)
  }

  datatype Taken =
    | Taken(names: seq<string>)
    | BeyondText      // a name was read on behind `subscriptions_data`

  // The names that `un_subscription` reads, from slot `i` on.
  function TakeBack(slots: Slots, data: Text, i: nat): Taken
    requires i <= MAX_PIPES
    decreases MAX_PIPES - i
  {
    if i == MAX_PIPES || slots[i].Empty? then Taken([])
    else if !EndsInside(data, slots[i].offset) then BeyondText
    else
      match TakeBack(slots, data, i + 1)
      case BeyondText => BeyondText
      case Taken(names) => Taken([CStr(data, slots[i].offset)] + names)
  }

  // Slot `k` is visited when the visit starts at slot `i`, and its name has no NUL behind it.
  predicate OpenEnd(slots: Slots, data: Text, i: nat, k: nat) {
    && i <= k < MAX_PIPES && (forall j :: i <= j <= k ==> slots[j].Name?)
    && !EndsInside(data, slots[k].offset)
  }

  lemma OpenEndNext(slots: Slots, data: Text, i: nat, next: nat)
    requires next == i + 1 && i < MAX_PIPES && slots[i].Name? && EndsInside(data, slots[i].offset)
    ensures (exists k :: OpenEnd(slots, data, i, k)) <==> (exists k :: OpenEnd(slots, data, next, k))
  {
    hide EndsInside;
    if k :| OpenEnd(slots, data, i, k) {
      assert OpenEnd(slots, data, next, k);
    }
    if k :| OpenEnd(slots, data, next, k) {
      assert OpenEnd(slots, data, i, k);
    }
  }

  // Taking back leaves the text exactly when one of the slots that it visits has no NUL behind its
  // name; otherwise it reads the names of all of them.
  lemma {:induction false} TakeBackLeavesIff(slots: Slots, data: Text, i: nat)
    requires i <= MAX_PIPES
    ensures TakeBack(slots, data, i).BeyondText? <==> exists k :: OpenEnd(slots, data, i, k)
    ensures TakeBack(slots, data, i).Taken? ==> TakeBack(slots, data, i).names == Visited(slots, data, i)
    decreases MAX_PIPES - i
  {
    hide EndsInside, CStr;
    if i < MAX_PIPES && slots[i].Name? {
      TakeBackLeavesIff(slots, data, i + 1);
      if !EndsInside(data, slots[i].offset) {
        assert OpenEnd(slots, data, i, i);
      } else {
        OpenEndNext(slots, data, i, i + 1);
      }
    }
  }

  function EraseAll(pipes: Pipes, dev: int, fd: int, live: Live, names: seq<string>): Pipes
    decreases |names|
  {
    if names == [] then pipes
    else
      var k := Key(dev, names[0]);
      var pipes' := Erase(pipes, k, fd);
      EraseAll(if IsTrack(names[0]) then Published(pipes', k, live) else pipes', dev, fd, live, names[1..])
  }

  function Cleared(slots: Slots): Slots {
    seq(MAX_PIPES, i requires 0 <= i < MAX_PIPES => if i < CLEARED_SLOTS then Empty else slots[i])
  }

  // ----- reading the list of channels -----

  datatype Result =
    | Done(code: int, slots: Slots, data: Text, names: seq<string>)
    | OutOfBounds     // the scan has left `subscriptions_data`

  // The loop of `ws_subscription` when `q` is the next character to look at, the current name
  // starts at `start` and `names` were inserted so far.  `len` is the length of the list.
  function Scan(data: Text, len: nat, anonymous: bool, q: nat, start: nat, slots: Slots, names: seq<string>): Result
    decreases if q < DATA_LEN then DATA_LEN - q else 0
  {
    if q > start + len then Done(0, slots, data, names)
    else if q >= DATA_LEN then OutOfBounds
    else if AZ09(data[q]) then
      if q - start >= NAME_LEN then Done(-1, slots, data, names)
      else Scan(data, len, anonymous, q + 1, start, slots, names)
    else
      var data' := data[q := NUL];
      if q - start < 2 then Done(0, slots, data', names)
      else if |names| >= MAX_PIPES then Done(0, slots, data', names)
      else
        var slots' := slots[|names| := Name(start)];
        var name := CStr(data', start);
        if IsPrivate(name) && anonymous then Scan(data', len, anonymous, q + 1, start, slots', names)
        else Scan(data', len, anonymous, q + 2, q + 1, slots', names + [name])
  }

  // A `track_` channel announces the new subscriber to those it has, before the insertion.
  function InsertOne(pipes: Pipes, dev: int, fd: int, live: Live, name: string): Pipes {
    var k := Key(dev, name);
    Insert(if IsTrack(name) then Published(pipes, k, live) else pipes, k, fd)
  }

  function InsertAll(pipes: Pipes, dev: int, fd: int, live: Live, names: seq<string>): Pipes
    decreases |names|
  {
    if names == [] then pipes
    else InsertAll(InsertOne(pipes, dev, fd, live, names[0]), dev, fd, live, names[1..])
  }

  // A `track_` channel announces the new subscriber, which erases the dead ones; others do not.
  lemma AnnouncedOnTrack(pipes: Pipes, dev: int, fd: int, live: Live, name: string, suffix: string)
    ensures var k := Key(dev, "track_" + suffix);
            Subscribers(InsertOne(pipes, dev, fd, live, "track_" + suffix), k)
            == [fd] + OnlyLive(Subscribers(pipes, k), dev, live)
    ensures |name| < 6 || name[..6] != "track_" ==>
              var k := Key(dev, name);
              Subscribers(InsertOne(pipes, dev, fd, live, name), k) == [fd] + Subscribers(pipes, k)
  {
    assert ("track_" + suffix)[..6] == "track_";
    assert "track_" <= name ==> name[..6] == "track_";
  }

  function Padded(event: string): Text
    requires |event| <= DATA_LEN
  {
    event + seq(DATA_LEN - |event|, _ => NUL)
  }

  function Subscribe(event: string, anonymous: bool, slots: Slots, data: Text): Result {
    if |event| > DATA_LEN then Done(-1, slots, data, [])
    else Scan(Padded(event), |event|, anonymous, 0, 0, slots, [])
  }

  // ----- every inserted name can be read back through its slot -----

  // Slot `j` points to the text of `names[j]`, which ends before `end`.
  ghost predicate Holds(slots: Slots, data: Text, names: seq<string>, end: nat) {
    && |names| <= MAX_PIPES
    && (forall j :: 0 <= j < |names| ==> SlotHolds(slots[j], data, names[j], end))
  }

  ghost predicate SlotHolds(slot: Slot, data: Text, name: string, end: nat) {
    && slot.Name? && NUL !in name
    && slot.offset + |name| < end && slot.offset + |name| < DATA_LEN
    && data[slot.offset..slot.offset + |name|] == name
    && data[slot.offset + |name|] == NUL
  }

  lemma {:induction false} CStrIs(data: seq<char>, offset: nat, n: nat)
    requires offset + n < |data| && data[offset + n] == NUL
    requires NUL !in data[offset..offset + n]
    ensures CStr(data, offset) == data[offset..offset + n]
    decreases n
  {
    if n > 0 {
      assert data[offset] == data[offset..offset + n][0];
      assert data[offset + 1..offset + 1 + (n - 1)] == data[offset..offset + n][1..];
      CStrIs(data, offset + 1, n - 1);
    }
  }

  lemma {:induction false} CStrEnd(data: seq<char>, offset: nat, q: nat)
    requires offset <= q < |data| && data[q] == NUL
    ensures var s := CStr(data, offset);
            offset + |s| <= q && data[offset..offset + |s|] == s && data[offset + |s|] == NUL
    decreases q - offset
  {
    if data[offset] != NUL {
      CStrEnd(data, offset + 1, q);
      var rest := CStr(data, offset + 1);
      assert CStr(data, offset) == [data[offset]] + rest;
      assert data[offset..offset + 1 + |rest|] == [data[offset]] + data[offset + 1..offset + 1 + |rest|];
    }
  }

  // Cutting the text behind the names leaves them alone.
  lemma CutKeeps(slots: Slots, data: Text, names: seq<string>, end: nat, q: nat)
    requires Holds(slots, data, names, end) && end <= q < DATA_LEN
    ensures Holds(slots, data[q := NUL], names, end)
  {
    forall j | 0 <= j < |names|
      ensures SlotHolds(slots[j], data[q := NUL], names[j], end)
    {
      assert data[q := NUL][slots[j].offset..slots[j].offset + |names[j]|] == names[j];
    }
  }

  // A further name, or the name of a channel that is skipped, goes to the next slot.
  lemma NextSlot(slots: Slots, data: Text, names: seq<string>, start: nat, q: nat)
    requires Holds(slots, data, names, start) && start <= q < DATA_LEN && data[q] == NUL && |names| < MAX_PIPES
    ensures var slots' := slots[|names| := Name(start)];
            Holds(slots', data, names, start) && Holds(slots', data, names + [CStr(data, start)], q + 1)
  {
    CStrEnd(data, start, q);
  }

  lemma {:induction false} ScanHolds(data: Text, len: nat, anonymous: bool, q: nat, start: nat, slots: Slots,
                                     names: seq<string>)
    requires Holds(slots, data, names, start) && start <= q
    ensures var r := Scan(data, len, anonymous, q, start, slots, names);
            r.Done? ==> Holds(r.slots, r.data, r.names, DATA_LEN + 1)
    decreases if q < DATA_LEN then DATA_LEN - q else 0
  {
    if q <= start + len && q < DATA_LEN {
      if AZ09(data[q]) {
        if q - start < NAME_LEN {
          ScanHolds(data, len, anonymous, q + 1, start, slots, names);
        }
      } else {
        var data' := data[q := NUL];
        CutKeeps(slots, data, names, start, q);
        if q - start >= 2 && |names| < MAX_PIPES {
          var slots' := slots[|names| := Name(start)];
          var name := CStr(data', start);
          NextSlot(slots, data', names, start, q);
          hide CStr, Holds;
          if IsPrivate(name) && anonymous {
            ScanHolds(data', len, anonymous, q + 1, start, slots', names);
          } else {
            ScanHolds(data', len, anonymous, q + 2, q + 1, slots', names + [name]);
          }
        }
      }
    }
  }

  lemma SubscribeHolds(event: string, anonymous: bool, slots: Slots, data: Text)
    ensures var r := Subscribe(event, anonymous, slots, data);
            r.Done? ==> Holds(r.slots, r.data, r.names, DATA_LEN + 1)
  {
    if |event| <= DATA_LEN {
      ScanHolds(Padded(event), |event|, anonymous, 0, 0, slots, []);
    }
  }

  // ----- which names are inserted -----

  predicate Allowed(names: seq<string>, anonymous: bool) {
    forall i :: 0 <= i < |names| ==> |names[i]| <= NAME_LEN && !(anonymous && IsPrivate(names[i]))
  }

  // The name that starts at `start` is short, or has been cut off already.
  ghost predicate ShortSoFar(data: Text, q: nat, start: nat) {
    && start <= q
    && (q - start <= NAME_LEN || exists e :: start <= e <= start + NAME_LEN && e < DATA_LEN && data[e] == NUL)
  }

  lemma CutIsShort(data: Text, q: nat, start: nat)
    requires ShortSoFar(data, q, start) && q < DATA_LEN
    ensures |CStr(data[q := NUL], start)| <= NAME_LEN && ShortSoFar(data[q := NUL], q + 1, start)
  {
    var data' := data[q := NUL];
    var e := q;
    if q - start > NAME_LEN {
      e :| start <= e <= start + NAME_LEN && e < DATA_LEN && data[e] == NUL;
    }
    assert data'[e] == NUL;
    CStrEnd(data', start, e);
  }

  lemma {:induction false} ScanAllowed(data: Text, len: nat, anonymous: bool, q: nat, start: nat, slots: Slots,
                                       names: seq<string>)
    requires ShortSoFar(data, q, start) && Allowed(names, anonymous)
    ensures var r := Scan(data, len, anonymous, q, start, slots, names); r.Done? ==> Allowed(r.names, anonymous)
    decreases if q < DATA_LEN then DATA_LEN - q else 0
  {
    hide CStr, IsPrivate, AZ09;
    if q <= start + len && q < DATA_LEN {
      if AZ09(data[q]) {
        if q - start < NAME_LEN {
          ScanAllowed(data, len, anonymous, q + 1, start, slots, names);
        }
      } else if q - start >= 2 && |names| < MAX_PIPES {
        var data' := data[q := NUL];
        var slots' := slots[|names| := Name(start)];
        var name := CStr(data', start);
        CutIsShort(data, q, start);
        if IsPrivate(name) && anonymous {
          ScanAllowed(data', len, anonymous, q + 1, start, slots', names);
        } else {
          ScanAllowed(data', len, anonymous, q + 2, q + 1, slots', names + [name]);
        }
      }
    }
  }

  // Whatever a client sends, no name of more than 64 characters is inserted, and for an anonymous
  // user no `private_` one.
  lemma SubscribeAllowed(event: string, anonymous: bool, slots: Slots, data: Text)
    ensures var r := Subscribe(event, anonymous, slots, data); r.Done? ==> Allowed(r.names, anonymous)
  {
    if |event| <= DATA_LEN {
      ScanAllowed(Padded(event), |event|, anonymous, 0, 0, slots, []);
    }
  }

  // ----- when the scan stays inside its text -----

  // The letters from `q` on are passed over, up to a name of 64 characters.
  lemma {:induction false} ScanToEnd(data: Text, len: nat, anonymous: bool, q: nat, start: nat, slots: Slots,
                                     names: seq<string>, end: nat)
    requires start <= q <= end < DATA_LEN && end <= start + NAME_LEN && end <= start + len
    requires forall k | q <= k < end :: AZ09(data[k])
    ensures Scan(data, len, anonymous, q, start, slots, names) == Scan(data, len, anonymous, end, start, slots, names)
    decreases end - q
  {
    if q < end {
      ScanToEnd(data, len, anonymous, q + 1, start, slots, names, end);
    }
  }

  // Where the letters from `q` on end.
  function NameEnd(text: Text, q: nat): (end: nat)
    requires q <= DATA_LEN
    ensures q <= end <= DATA_LEN && (forall k | q <= k < end :: AZ09(text[k]))
    ensures end < DATA_LEN ==> !AZ09(text[end])
    decreases DATA_LEN - q
  {
    if q == DATA_LEN || !AZ09(text[q]) then q else NameEnd(text, q + 1)
  }

  datatype Place = Nowhere | At(start: nat)

  // Where the first `private_` name stands that an anonymous user is refused, when the name from
  // `start` on is number `count` and `q` is its first character that is looked at.
  function RefusedAt(text: Text, anonymous: bool, start: nat, q: nat, count: nat): Place
    requires start <= q
    decreases if q < DATA_LEN then DATA_LEN - q else 0
  {
    if q >= DATA_LEN || count >= MAX_PIPES then Nowhere
    else
      var end := NameEnd(text, q);
      if end == DATA_LEN || end - start < 2 || end - start > NAME_LEN then Nowhere
      else if anonymous && IsPrivate(text[start..end]) then At(start)
      else RefusedAt(text, anonymous, end + 1, end + 2, count + 1)
  }

  predicate NoLetters(text: Text, from: nat) {
    forall k :: from <= k < DATA_LEN ==> !AZ09(text[k])
  }

  // The refused name starts so late that its allowance of one more length of the list reaches
  // behind the text, and no letter stops the scan before.
  predicate Escapes(text: Text, len: nat, place: Place) {
    place.At? && place.start + len >= DATA_LEN && NoLetters(text, place.start + NAME_LEN)
  }

  lemma {:induction false} CStrCut(data: Text, start: nat, e: nat, q: nat)
    requires start <= e < q < DATA_LEN && data[e] == NUL
    ensures CStr(data[q := NUL], start) == CStr(data, start)
    decreases e - start
  {
    if start < e && data[start] != NUL {
      CStrCut(data, start + 1, e, q);
    }
  }

  function Max(a: nat, b: nat): nat {
    if a < b then b else a
  }

  // From `from` on two texts have the same letters if they do behind a place without a letter.
  lemma SameLetters(data: Text, data': Text, q: nat, from: nat)
    requires q < DATA_LEN && !AZ09(data[q]) && (forall k | q < k < DATA_LEN :: data'[k] == data[k])
    ensures NoLetters(data', Max(q + 1, from)) <==> NoLetters(data, Max(q, from))
  {
    hide AZ09;
    if NoLetters(data', Max(q + 1, from)) {
      forall k | Max(q, from) <= k < DATA_LEN
        ensures !AZ09(data[k])
      {
        if k > q {
          assert !AZ09(data'[k]);
        }
      }
    }
    if NoLetters(data, Max(q, from)) {
      forall k | Max(q + 1, from) <= k < DATA_LEN
        ensures !AZ09(data'[k])
      {
        assert !AZ09(data[k]);
      }
    }
  }

  // After a refused name, which ends at `e`, the scan does not move its start any more.
  lemma {:induction false} ScanRefused(data: Text, len: nat, q: nat, start: nat, slots: Slots, names: seq<string>,
                                       e: nat)
    requires start + 2 <= e < q <= DATA_LEN && |names| < MAX_PIPES
    requires data[e] == NUL && IsPrivate(CStr(data, start))
    ensures Scan(data, len, true, q, start, slots, names).OutOfBounds? <==>
            start + len >= DATA_LEN && NoLetters(data, Max(q, start + NAME_LEN))
    decreases DATA_LEN - q
  {
    hide CStr, IsPrivate, AZ09;
    if q <= start + len && q < DATA_LEN {
      if AZ09(data[q]) {
        if q - start < NAME_LEN {
          ScanRefused(data, len, q + 1, start, slots, names, e);
        }
      } else {
        var data' := data[q := NUL];
        CStrCut(data, start, e, q);
        SameLetters(data, data', q, start + NAME_LEN);
        ScanRefused(data', len, q + 1, start, slots[|names| := Name(start)], names, e);
      }
    }
  }

  lemma NulIsNoLetter()
    ensures !AZ09(NUL)
  {
  }

  // A name is private as it stands in the text, or cut off and read as a C string.
  lemma PrivateInText(text: Text, data: Text, start: nat, q: nat, end: nat)
    requires start <= q <= start + 1 && q <= end < DATA_LEN && data[start..] == text[start..]
    requires forall k | q <= k < end :: AZ09(text[k])
    ensures IsPrivate(CStr(data[end := NUL], start)) <==> IsPrivate(text[start..end])
  {
    var data' := data[end := NUL];
    forall k | start <= k < DATA_LEN
      ensures data[k] == text[k]
    {
      assert data[start..][k - start] == text[start..][k - start];
    }
    if start < end && text[start] == NUL {
      assert CStr(data', start) == "";
      assert !IsPrivate(text[start..end]) by {
        assert text[start..end][0] == NUL;
      }
    } else {
      CStrIs(data', start, end - start);
      assert data'[start..end] == text[start..end];
    }
  }

  // One name of the scan, when it is neither too short nor one too many.
  lemma ScanName(text: Text, data: Text, len: nat, anonymous: bool, q: nat, start: nat, slots: Slots,
                 names: seq<string>)
    requires start <= q <= start + 1 && q <= start + len && q < DATA_LEN && data[start..] == text[start..]
    requires |names| <= MAX_PIPES && (forall j :: len <= j < DATA_LEN ==> text[j] == NUL)
    requires NameEnd(text, q) <= start + NAME_LEN && NameEnd(text, q) < DATA_LEN
    ensures var end := NameEnd(text, q);
            var data' := data[end := NUL];
            var r := Scan(data, len, anonymous, q, start, slots, names);
            if end - start < 2 || |names| == MAX_PIPES then r.Done?
            else
              var slots' := slots[|names| := Name(start)];
              r == if anonymous && IsPrivate(text[start..end])
                   then Scan(data', len, anonymous, end + 1, start, slots', names)
                   else Scan(data', len, anonymous, end + 2, end + 1, slots', names + [CStr(data', start)])
  {
    hide Scan, CStr, IsPrivate;
    var end := NameEnd(text, q);
    SameFrom(text, data, start);
    NulIsNoLetter();
    assert end > q ==> AZ09(text[end - 1]);
    assert end <= start + len;
    ScanToEnd(data, len, anonymous, q, start, slots, names, end);
    ScanRound(data, len, anonymous, end, start, slots, names);
    PrivateInText(text, data, start, q, end);
  }

  lemma SameFrom(text: Text, data: Text, start: nat)
    requires start <= DATA_LEN && data[start..] == text[start..]
    ensures forall k | start <= k < DATA_LEN :: data[k] == text[k]
  {
    forall k | start <= k < DATA_LEN
      ensures data[k] == text[k]
    {
      assert data[start..][k - start] == text[start..][k - start];
    }
  }

  lemma LongName(text: Text, data: Text, len: nat, anonymous: bool, q: nat, start: nat, slots: Slots,
                 names: seq<string>)
    requires start <= q <= start + 1 && start + NAME_LEN < DATA_LEN && data[start..] == text[start..]
    requires forall j :: len <= j < DATA_LEN ==> text[j] == NUL
    requires NameEnd(text, q) > start + NAME_LEN
    ensures Scan(data, len, anonymous, q, start, slots, names).Done?
  {
    var e := start + NAME_LEN;
    SameFrom(text, data, start);
    NulIsNoLetter();
    assert AZ09(text[e]);
    ScanToEnd(data, len, anonymous, q, start, slots, names, e);
  }

  // The scan of a list leaves the text exactly when the text says so beforehand.
  lemma {:induction false} ScanEscapes(text: Text, data: Text, len: nat, anonymous: bool, q: nat, start: nat,
                                       slots: Slots, names: seq<string>)
    requires start <= q <= start + 1 && start <= 65 * |names| && |names| <= MAX_PIPES
    requires data[start..] == text[start..] && (forall j :: len <= j < DATA_LEN ==> text[j] == NUL)
    ensures Scan(data, len, anonymous, q, start, slots, names).OutOfBounds? <==>
            Escapes(text, len, RefusedAt(text, anonymous, start, q, |names|))
    decreases MAX_PIPES - |names|
  {
    hide CStr, IsPrivate, Scan, Escapes, AZ09, NameEnd;
    var end := NameEnd(text, q);
    NowhereNeverEscapes(text, len);
    if q > start + len {
      TooShort(text, data, len, anonymous, q, start, slots, names);
    } else if end > start + NAME_LEN {
      LongName(text, data, len, anonymous, q, start, slots, names);
    } else {
      ScanName(text, data, len, anonymous, q, start, slots, names);
      if end - start >= 2 && |names| < MAX_PIPES {
        var data' := data[end := NUL];
        var slots' := slots[|names| := Name(start)];
        if anonymous && IsPrivate(text[start..end]) {
          RefusedName(text, data, len, start, q, end, slots', names);
        } else {
          SameRest(text, data, start, end);
          ScanEscapes(text, data', len, anonymous, end + 2, end + 1, slots', names + [CStr(data', start)]);
        }
      }
    }
  }

  lemma SameRest(text: Text, data: Text, start: nat, end: nat)
    requires start <= end < DATA_LEN && data[start..] == text[start..]
    ensures data[end := NUL][end + 1..] == text[end + 1..]
  {
    assert data[end := NUL][end + 1..] == data[start..][end + 1 - start..];
    assert text[end + 1..] == text[start..][end + 1 - start..];
  }

  lemma NowhereNeverEscapes(text: Text, len: nat)
    ensures !Escapes(text, len, Nowhere)
  {
  }

  lemma TooShort(text: Text, data: Text, len: nat, anonymous: bool, q: nat, start: nat, slots: Slots,
                 names: seq<string>)
    requires start + len < q <= start + 1 && q < DATA_LEN && (forall j :: len <= j < DATA_LEN ==> text[j] == NUL)
    ensures Scan(data, len, anonymous, q, start, slots, names).Done?
    ensures RefusedAt(text, anonymous, start, q, |names|).Nowhere?
  {
  }

  lemma RefusedName(text: Text, data: Text, len: nat, start: nat, q: nat, end: nat, slots: Slots, names: seq<string>)
    requires start <= q <= start + 1 && start + 2 <= end <= start + NAME_LEN && end < DATA_LEN && |names| < MAX_PIPES
    requires data[start..] == text[start..] && IsPrivate(text[start..end])
    requires !AZ09(text[end]) && (forall k | q <= k < end :: AZ09(text[k]))
    ensures Scan(data[end := NUL], len, true, end + 1, start, slots, names).OutOfBounds? <==>
            Escapes(text, len, At(start))
  {
    hide CStr, IsPrivate, Scan, AZ09;
    var data' := data[end := NUL];
    PrivateInText(text, data, start, q, end);
    ScanRefused(data', len, end + 1, start, slots, names, end);
    SameFrom(text, data, start);
    SameLetters(text, data', end, start + NAME_LEN);
  }

  // The scan of `event` leaves `subscriptions_data`, by what stands in `event`: some name is refused
  // an anonymous user so late that one more length of the list reaches behind the text, and no
  // letter stands 64 characters or more behind its start.
  predicate LeavesText(event: string, anonymous: bool) {
    && |event| <= DATA_LEN
    && var place := RefusedAt(Padded(event), anonymous, 0, 0, 0);
    && place.At? && place.start + |event| >= DATA_LEN
    && (forall k :: place.start + NAME_LEN <= k < |event| ==> !AZ09(event[k]))
  }

  lemma SubscribeLeavesTextIff(event: string, anonymous: bool, slots: Slots, data: Text)
    ensures Subscribe(event, anonymous, slots, data).OutOfBounds? <==> LeavesText(event, anonymous)
  {
    if |event| <= DATA_LEN {
      hide Scan, RefusedAt, AZ09;
      var text := Padded(event);
      ScanEscapes(text, text, |event|, anonymous, 0, 0, slots, []);
      NulIsNoLetter();
      var place := RefusedAt(text, anonymous, 0, 0, 0);
      if place.At? {
        assert forall k | 0 <= k < |event| :: text[k] == event[k];
      }
    }
  }

  lemma {:induction false} NobodyRefused(text: Text, start: nat, q: nat, count: nat)
    requires start <= q
    ensures RefusedAt(text, false, start, q, count).Nowhere?
    decreases if q < DATA_LEN then DATA_LEN - q else 0
  {
    if q < DATA_LEN && count < MAX_PIPES {
      var end := NameEnd(text, q);
      if end != DATA_LEN && 2 <= end - start <= NAME_LEN {
        NobodyRefused(text, end + 1, end + 2, count + 1);
      }
    }
  }

  // For a user who has logged in the scan never leaves the text, whatever the list.
  lemma LoggedInStays(event: string, slots: Slots, data: Text)
    ensures Subscribe(event, false, slots, data).Done?
  {
    hide Subscribe;
    SubscribeLeavesTextIff(event, false, slots, data);
    if |event| <= DATA_LEN {
      NobodyRefused(Padded(event), 0, 0, 0);
    }
  }

  // Seventeen names of 64 letters and a private one, 1115 characters in all.
  const LONG_LIST: string := seq(1105, i => if i % 65 == 64 then '\n' else 'a') + "private_xx"

  lemma NameEndIs(text: Text, q: nat, end: nat)
    requires q <= end < DATA_LEN && !AZ09(text[end]) && (forall k | q <= k < end :: AZ09(text[k]))
    ensures NameEnd(text, q) == end
  {
  }

  lemma LongListName(text: Text, j: nat)
    requires j < 17 && text == Padded(LONG_LIST)
    ensures forall k | 65 * j <= k < 65 * j + 64 :: text[k] == 'a'
    ensures text[65 * j + 64] == '\n'
  {
    forall k | 65 * j <= k < 65 * j + 64
      ensures text[k] == 'a'
    {
      assert k % 65 != 64;
    }
    assert (65 * j + 64) % 65 == 64;
  }

  lemma LongListEnd(text: Text)
    requires text == Padded(LONG_LIST)
    ensures text[1105..1115] == "private_xx" && text[1115] == NUL
    ensures NameEnd(text, 1106) == 1115
  {
    assert text[1105..1115] == "private_xx";
    forall k | 1106 <= k < 1115
      ensures AZ09(text[k])
    {
      assert text[k] == "private_xx"[k - 1105];
    }
    NameEndIs(text, 1106, 1115);
  }

  lemma {:induction false} LongListRefused(text: Text, j: nat)
    requires j <= 17 && text == Padded(LONG_LIST)
    ensures RefusedAt(text, true, 65 * j, if j == 0 then 0 else 65 * j + 1, j) == At(1105)
    decreases 17 - j
  {
    hide NameEnd, Padded;
    var start, q := 65 * j, if j == 0 then 0 else 65 * j + 1;
    if j == 17 {
      LongListEnd(text);
    } else {
      LongListName(text, j);
      NameEndIs(text, q, start + 64);
      assert text[start..start + 64][0] == 'a';
      LongListRefused(text, j + 1);
    }
  }

  lemma LongListLeaves(slots: Slots, data: Text)
    ensures |LONG_LIST| == 1115 && LeavesText(LONG_LIST, true)
    ensures Subscribe(LONG_LIST, true, slots, data).OutOfBounds?
  {
    hide Subscribe, RefusedAt;
    LongListRefused(Padded(LONG_LIST), 0);
    SubscribeLeavesTextIff(LONG_LIST, true, slots, data);
  }

  // The names that were inserted are the first ones that `un_subscription` visits.
  lemma {:induction false} VisitedFrom(slots: Slots, data: Text, names: seq<string>, i: nat)
    requires Holds(slots, data, names, DATA_LEN + 1) && i <= |names|
    ensures names[i..] <= Visited(slots, data, i)
    decreases |names| - i
  {
    if i < |names| {
      var offset := slots[i].offset;
      assert SlotHolds(slots[i], data, names[i], DATA_LEN + 1);
      CStrIs(data, offset, |names[i]|);
      VisitedFrom(slots, data, names, i + 1);
      assert names[i..] == [names[i]] + names[i + 1..];
    }
  }

  // The first character of a name is tested only for the first one: ".b" is inserted as a second.
  lemma FirstCharacterUntested(slots: Slots, data: Text)
    ensures var r := Subscribe("aa\n.b", false, slots, data);
            r.Done? && r.code == 0 && r.names == ["aa", ".b"]
  {
    hide Scan, CStr, IsPrivate;
    var text := Padded("aa\n.b");
    NameEndIs(text, 0, 2);
    NameEndIs(text, 4, 5);
    ScanName(text, text, 5, false, 0, 0, slots, []);
    SameRest(text, text, 0, 2);
    var data1 := text[2 := NUL];
    var slots1 := slots[0 := Name(0)];
    ScanName(text, data1, 5, false, 4, 3, slots1, ["aa"]);
    var data2 := data1[5 := NUL];
    CStrIs(data1, 0, 2);
    CStrIs(data2, 3, 2);
    assert data1[0..2] == "aa" && data2[3..5] == ".b";
    assert [] + ["aa"] == ["aa"] && ["aa"] + [".b"] == ["aa", ".b"];
    NulIsNoLetter();
    ScanRound(data2, 5, false, 7, 6, slots1[1 := Name(3)], ["aa", ".b"]);
  }

  // ----- which slots have a NUL behind their names -----

  ghost predicate PointInside(slots: Slots) {
    forall j | 0 <= j < MAX_PIPES && slots[j].Name? :: slots[j].offset < DATA_LEN
  }

  // Those of the first `count` names, and of the slots that taking back clears, have one.
  ghost predicate Closed(slots: Slots, data: Text, count: nat) {
    forall j | 0 <= j < MAX_PIPES && (j < count || j < CLEARED_SLOTS) && slots[j].Name? ::
      EndsInside(data, slots[j].offset)
  }

  lemma EndsAt(data: Text, offset: nat, q: nat)
    requires offset <= q < DATA_LEN && data[q] == NUL
    ensures EndsInside(data, offset)
  {
    assert data[offset..][q - offset] == NUL;
  }

  lemma EndsBefore(data: Text, offset: nat) returns (q: nat)
    requires EndsInside(data, offset)
    ensures offset <= q < DATA_LEN && data[q] == NUL
  {
    var k :| 0 <= k < |data[offset..]| && data[offset..][k] == NUL;
    q := offset + k;
  }

  lemma CutEnds(data: Text, offset: nat, q: nat)
    requires q < DATA_LEN && (offset <= q || EndsInside(data, offset))
    ensures EndsInside(data[q := NUL], offset)
  {
    if offset <= q {
      EndsAt(data[q := NUL], offset, q);
    } else {
      var k := EndsBefore(data, offset);
      EndsAt(data[q := NUL], offset, k);
    }
  }

  lemma CutCloses(slots: Slots, data: Text, count: nat, start: nat, q: nat)
    requires Closed(slots, data, count) && start <= q < DATA_LEN
    ensures Closed(slots, data[q := NUL], count)
    ensures count < MAX_PIPES ==> Closed(slots[count := Name(start)], data[q := NUL], count + 1)
  {
    hide EndsInside;
    CutEnds(data, start, q);
    forall j | 0 <= j < MAX_PIPES && (j < count || j < CLEARED_SLOTS) && slots[j].Name?
      ensures EndsInside(data[q := NUL], slots[j].offset)
    {
      CutEnds(data, slots[j].offset, q);
    }
  }

  lemma {:induction false} ScanCloses(data: Text, len: nat, anonymous: bool, q: nat, start: nat, slots: Slots,
                                      names: seq<string>)
    requires start <= q && PointInside(slots) && Closed(slots, data, |names|)
    ensures var r := Scan(data, len, anonymous, q, start, slots, names);
            r.Done? ==> && PointInside(r.slots) && Closed(r.slots, r.data, |r.names|)
                        && (data[DATA_LEN - 1] == NUL ==> r.data[DATA_LEN - 1] == NUL)
    decreases if q < DATA_LEN then DATA_LEN - q else 0
  {
    hide CStr, IsPrivate, AZ09, EndsInside;
    if q <= start + len && q < DATA_LEN {
      if AZ09(data[q]) {
        if q - start < NAME_LEN {
          ScanCloses(data, len, anonymous, q + 1, start, slots, names);
        }
      } else {
        var data' := data[q := NUL];
        CutCloses(slots, data, |names|, start, q);
        if q - start >= 2 && |names| < MAX_PIPES {
          var slots' := slots[|names| := Name(start)];
          var name := CStr(data', start);
          if IsPrivate(name) && anonymous {
            ScanCloses(data', len, anonymous, q + 1, start, slots', names);
          } else {
            ScanCloses(data', len, anonymous, q + 2, q + 1, slots', names + [name]);
          }
        }
      }
    }
  }

  // After a list that was stored, the slots that it filled and those that had been cleared have a
  // NUL behind their names, and unless it fills the text, all have.
  lemma SubscribeCloses(event: string, anonymous: bool, slots: Slots, data: Text)
    requires PointInside(slots) && |event| <= DATA_LEN
    ensures var r := Subscribe(event, anonymous, Cleared(slots), data);
            r.Done? ==> && PointInside(r.slots) && Closed(r.slots, r.data, |r.names|)
                        && (|event| < DATA_LEN ==> r.data[DATA_LEN - 1] == NUL)
  {
    hide Scan, EndsInside;
    ScanCloses(Padded(event), |event|, anonymous, 0, 0, Cleared(slots), []);
  }

  // Hence taking back leaves the text at a slot that was not cleared and holds no inserted name, and
  // only when the last character of the text is in use.
  lemma OpenEndIsStale(slots: Slots, data: Text, count: nat, k: nat)
    requires PointInside(slots) && Closed(slots, data, count) && OpenEnd(slots, data, 0, k)
    ensures k >= count && k >= CLEARED_SLOTS && data[DATA_LEN - 1] != NUL
  {
    hide EndsInside;
    if data[DATA_LEN - 1] == NUL {
      EndsAt(data, slots[k].offset, DATA_LEN - 1);
    }
  }

  // Six short names, and two lists of 2176 characters that overwrite them: the scan of one is
  // answered with -1, that of the other ends at a name that is too short.
  const SIX_NAMES: string := "aa\naa\naa\naa\naa\naa"
  const FULL_REFUSED: string := "aa\naa\naa\naa\n" + seq(2164, _ => 'b')
  const FULL_ACCEPTED: string := "aa\naa\naa\naa\nb\n" + seq(2162, _ => 'b')

  ghost predicate PairAt(text: Text, j: nat) {
    3 * j + 2 < DATA_LEN && text[3 * j] == 'a' && text[3 * j + 1] == 'a' && !AZ09(text[3 * j + 2])
  }

  // Names of two letters are cut off one after the other, up to number `n`.
  lemma {:induction false} ScanPairs(text: Text, data: Text, len: nat, q: nat, slots: Slots, names: seq<string>,
                                     n: nat)
    returns (data': Text, slots': Slots, names': seq<string>)
    requires |names| <= n <= 6 && 3 * |names| <= q <= 3 * |names| + 1 && 1 <= len
    requires data[3 * |names|..] == text[3 * |names|..] && (forall j :: len <= j < DATA_LEN ==> text[j] == NUL)
    requires forall j | |names| <= j < n :: PairAt(text, j)
    ensures |names'| == n && data'[3 * n..] == text[3 * n..]
    ensures forall j | 0 <= j < MAX_PIPES :: slots'[j] == if |names| <= j < n then Name(3 * j) else slots[j]
    ensures Scan(data, len, false, q, 3 * |names|, slots, names)
            == Scan(data', len, false, if |names| == n then q else 3 * n + 1, 3 * n, slots', names')
    decreases n - |names|
  {
    hide Scan, CStr, IsPrivate;
    var k, start := |names|, 3 * |names|;
    if k == n {
      data', slots', names' := data, slots, names;
    } else {
      assert PairAt(text, k);
      NameEndIs(text, q, start + 2);
      ScanName(text, data, len, false, q, start, slots, names);
      SameRest(text, data, start, start + 2);
      var cut := data[start + 2 := NUL];
      data', slots', names' :=
        ScanPairs(text, cut, len, start + 4, slots[k := Name(start)], names + [CStr(cut, start)], n);
    }
  }

  lemma SixNames(slots: Slots, data: Text)
    ensures |SIX_NAMES| == 17
    ensures var r := Subscribe(SIX_NAMES, false, slots, data);
            && r.Done? && r.code == 0 && |r.names| == 6
            && forall j | 0 <= j < MAX_PIPES :: r.slots[j] == if j < 6 then Name(3 * j) else slots[j]
  {
    hide Scan, CStr, IsPrivate;
    var text := Padded(SIX_NAMES);
    forall j | 0 <= j < 6
      ensures PairAt(text, j)
    {
    }
    var data', slots', names' := ScanPairs(text, text, 17, 0, slots, [], 6);
    SameFrom(text, data', 18);
    ScanRound(data', 17, false, 19, 18, slots', names');
  }

  lemma FullRefused(slots: Slots, data: Text)
    requires slots[4] == Name(12)
    ensures |FULL_REFUSED| == DATA_LEN
    ensures var r := Subscribe(FULL_REFUSED, false, slots, data);
            r.Done? && r.code == -1 && OpenEnd(r.slots, r.data, 0, 4)
  {
    hide Scan, CStr, IsPrivate;
    var text := Padded(FULL_REFUSED);
    forall j | 0 <= j < 4
      ensures PairAt(text, j)
    {
    }
    var data', slots', names' := ScanPairs(text, text, DATA_LEN, 0, slots, [], 4);
    SameFrom(text, data', 12);
    assert forall k | 12 <= k < DATA_LEN :: data'[k] == 'b';
    ScanToEnd(data', DATA_LEN, false, 13, 12, slots', names', 76);
    ScanRound(data', DATA_LEN, false, 76, 12, slots', names');
  }

  lemma FullAccepted(slots: Slots, data: Text)
    requires slots[4] == Name(12) && slots[5] == Name(15)
    ensures |FULL_ACCEPTED| == DATA_LEN
    ensures var r := Subscribe(FULL_ACCEPTED, false, slots, data);
            r.Done? && r.code == 0 && OpenEnd(r.slots, r.data, 0, 5)
  {
    hide Scan, CStr, IsPrivate;
    var text := Padded(FULL_ACCEPTED);
    forall j | 0 <= j < 4
      ensures PairAt(text, j)
    {
    }
    var data', slots', names' := ScanPairs(text, text, DATA_LEN, 0, slots, [], 4);
    SameFrom(text, data', 12);
    assert forall k | 15 <= k < DATA_LEN :: data'[k] == 'b';
    ScanRound(data', DATA_LEN, false, 13, 12, slots', names');
  }

  // ----- the list of channels as the client sends it -----

  // `subscription_array.join("\n")`
  function Join(names: seq<string>): string {
    if names == [] then [] else if |names| == 1 then names[0] else names[0] + "\n" + Join(names[1..])
  }

  predicate ValidName(name: string, anonymous: bool) {
    2 <= |name| <= NAME_LEN && (forall c | c in name :: AZ09(c)) && !(anonymous && IsPrivate(name))
  }

  predicate ValidNames(names: seq<string>, anonymous: bool) {
    forall i :: 0 <= i < |names| ==> ValidName(names[i], anonymous)
  }

  lemma {:induction false} JoinLength(names: seq<string>, anonymous: bool)
    requires ValidNames(names, anonymous)
    ensures |Join(names)| <= |names| * (NAME_LEN + 1)
    ensures names != [] ==> |Join(names)| < |names| * (NAME_LEN + 1)
  {
    if |names| > 1 {
      JoinLength(names[1..], anonymous);
    }
  }

  // What lies in the text from the current name on; `len` is the length of the whole list.
  ghost predicate Ahead(data: Text, len: nat, start: nat, rest: seq<string>) {
    && start <= DATA_LEN
    && start + |Join(rest)| == (if rest == [] then len + 1 else len)
    && start + |Join(rest)| <= DATA_LEN
    && data[start..] == Join(rest) + seq(DATA_LEN - start - |Join(rest)|, _ => NUL)
  }

  // The text of the first of the remaining names, and what stands behind it.
  lemma TextAhead(data: Text, len: nat, start: nat, rest: seq<string>, anonymous: bool)
    requires Ahead(data, len, start, rest) && rest != [] && len + 2 < DATA_LEN && ValidNames(rest, anonymous)
    ensures var n := |rest[0]|;
            && n <= len && start + n <= len
            && data[start..start + n] == rest[0]
            && data[start + n] == if |rest| == 1 then NUL else '\n'
  {
    var n := |rest[0]|;
    var tail := data[start..];
    assert data[start..start + n] == tail[..n];
    assert tail[n] == data[start + n];
  }

  lemma RestAhead(data: Text, len: nat, start: nat, rest: seq<string>, anonymous: bool)
    requires Ahead(data, len, start, rest) && rest != [] && len + 2 < DATA_LEN && ValidNames(rest, anonymous)
    ensures start + |rest[0]| <= len && Ahead(data[start + |rest[0]| := NUL], len, start + |rest[0]| + 1, rest[1..])
  {
    var n := |rest[0]|;
    var tail := data[start..];
    assert data[start + n := NUL][start + n + 1..] == tail[n + 1..];
    if |rest| == 1 {
      assert rest[1..] == [];
      assert tail[n + 1..] == seq(DATA_LEN - (start + n + 1), _ => NUL);
    } else {
      assert Join(rest) == rest[0] + "\n" + Join(rest[1..]);
      assert tail[n + 1..] == Join(rest[1..]) + seq(DATA_LEN - start - |Join(rest)|, _ => NUL);
    }
  }

  // The first of the remaining names, and what is left when it is cut off.
  lemma FirstAhead(data: Text, len: nat, start: nat, rest: seq<string>, anonymous: bool)
    requires Ahead(data, len, start, rest) && rest != [] && len + 2 < DATA_LEN && ValidNames(rest, anonymous)
    ensures var n := |rest[0]|;
            && n <= len && start + n <= len
            && (forall k | start <= k < start + n :: AZ09(data[k])) && !AZ09(data[start + n])
            && CStr(data[start + n := NUL], start) == rest[0]
            && Ahead(data[start + n := NUL], len, start + n + 1, rest[1..])
  {
    hide Ahead, CStr;
    var n := |rest[0]|;
    TextAhead(data, len, start, rest, anonymous);
    RestAhead(data, len, start, rest, anonymous);
    forall k | start <= k < start + n
      ensures AZ09(data[k])
    {
      assert data[k] == data[start..start + n][k - start] && rest[0][k - start] in rest[0];
    }
    var data' := data[start + n := NUL];
    assert data'[start..start + n] == rest[0];
    assert NUL !in rest[0];
    CStrIs(data', start, n);
  }

  // The scan of one of the joined names.
  lemma ScanOne(data: Text, len: nat, anonymous: bool, q: nat, start: nat, slots: Slots, names: seq<string>,
                rest: seq<string>)
    requires Ahead(data, len, start, rest) && len + 2 < DATA_LEN && ValidNames(rest, anonymous) && rest != []
    requires q == start || q == start + 1
    requires |names| < MAX_PIPES
    ensures var n := |rest[0]|;
            && start + n <= len && Ahead(data[start + n := NUL], len, start + n + 1, rest[1..])
            && Scan(data, len, anonymous, q, start, slots, names)
               == Scan(data[start + n := NUL], len, anonymous, start + n + 2, start + n + 1,
                       slots[|names| := Name(start)], names + [rest[0]])
  {
    hide CStr, Ahead, Join, Scan, IsPrivate;
    var n := |rest[0]|;
    assert ValidName(rest[0], anonymous);
    FirstAhead(data, len, start, rest, anonymous);
    ScanToEnd(data, len, anonymous, q, start, slots, names, start + n);
    ScanRound(data, len, anonymous, start + n, start, slots, names);
  }

  lemma {:induction false} ScanJoined(data: Text, len: nat, anonymous: bool, q: nat, start: nat, slots: Slots,
                                      names: seq<string>, rest: seq<string>)
    requires Ahead(data, len, start, rest) && len + 2 < DATA_LEN && ValidNames(rest, anonymous)
    requires q == start + 1 || (q == start && (rest != [] || names == []))
    requires |names| + |rest| <= MAX_PIPES
    ensures var r := Scan(data, len, anonymous, q, start, slots, names);
            r.Done? && r.code == 0 && r.names == names + rest
    decreases |rest|
  {
    if rest == [] {
      assert data[start..][q - start] == NUL;
      assert data[q] == NUL;
      assert names + rest == names;
    } else {
      hide Ahead, Scan, ValidName;
      var n := |rest[0]|;
      ScanOne(data, len, anonymous, q, start, slots, names, rest);
      ScanJoined(data[start + n := NUL], len, anonymous, start + n + 2, start + n + 1, slots[|names| := Name(start)],
                 names + [rest[0]], rest[1..]);
      assert names + [rest[0]] + rest[1..] == names + rest;
    }
  }

  lemma ShortEnough(names: seq<string>, anonymous: bool)
    requires names != [] && |names| <= MAX_PIPES && ValidNames(names, anonymous)
    ensures |Join(names)| + 2 < DATA_LEN
  {
    JoinLength(names, anonymous);
  }

  lemma ScanWhole(names: seq<string>, anonymous: bool, slots: Slots)
    requires names != [] && |names| <= MAX_PIPES && ValidNames(names, anonymous)
    requires |Join(names)| + 2 < DATA_LEN
    ensures var r := Scan(Padded(Join(names)), |Join(names)|, anonymous, 0, 0, slots, []);
            r.Done? && r.code == 0 && r.names == names
  {
    hide Join, Scan, ValidNames, Padded, Ahead;
    JoinedAhead(names);
    ScanJoined(Padded(Join(names)), |Join(names)|, anonymous, 0, 0, slots, [], names);
    assert [] + names == names;
  }

  // The names a client joins with newlines are the names the server inserts, in order.
  lemma SubscribeRoundTrip(names: seq<string>, anonymous: bool, slots: Slots, data: Text)
    requires names != [] && |names| <= MAX_PIPES && ValidNames(names, anonymous)
    ensures var r := Subscribe(Join(names), anonymous, slots, data);
            && r.Done? && r.code == 0 && r.names == names
            && names <= Visited(r.slots, r.data, 0)
  {
    hide Join, Scan, ValidNames, Padded, Visited, Holds;
    ShortEnough(names, anonymous);
    ScanWhole(names, anonymous, slots);
    var r := Subscribe(Join(names), anonymous, slots, data);
    SubscribeHolds(Join(names), anonymous, slots, data);
    VisitedFrom(r.slots, r.data, names, 0);
    assert names[0..] == names;
  }

  lemma JoinedAhead(names: seq<string>)
    requires names != [] && |Join(names)| <= DATA_LEN
    ensures Ahead(Padded(Join(names)), |Join(names)|, 0, names)
  {
    hide Join;
    var event := Join(names);
    assert Padded(event)[0..] == event + seq(DATA_LEN - |event|, _ => NUL);
  }

  // ----- the same, in place -----

  lemma {:induction false} InsertAllSnoc(pipes: Pipes, dev: int, fd: int, live: Live, names: seq<string>, name: string)
    ensures InsertAll(pipes, dev, fd, live, names + [name])
            == InsertOne(InsertAll(pipes, dev, fd, live, names), dev, fd, live, name)
    decreases |names|
  {
    if names == [] {
      assert [] + [name] == [name] && [name][1..] == [];
    } else {
      assert (names + [name])[1..] == names[1..] + [name];
      InsertAllSnoc(InsertOne(pipes, dev, fd, live, names[0]), dev, fd, live, names[1..], name);
    }
  }

  // One round of the scan.
  lemma ScanRound(data: Text, len: nat, anonymous: bool, q: nat, start: nat, slots: Slots, names: seq<string>)
    requires q <= start + len
    ensures var r := Scan(data, len, anonymous, q, start, slots, names);
            if q >= DATA_LEN then r.OutOfBounds?
            else if AZ09(data[q]) then
              r == if q - start >= NAME_LEN then Done(-1, slots, data, names)
                   else Scan(data, len, anonymous, q + 1, start, slots, names)
            else
              var data' := data[q := NUL];
              if q - start < 2 || |names| >= MAX_PIPES then r == Done(0, slots, data', names)
              else
                var name := CStr(data', start);
                var slots' := slots[|names| := Name(start)];
                r == if IsPrivate(name) && anonymous then Scan(data', len, anonymous, q + 1, start, slots', names)
                     else Scan(data', len, anonymous, q + 2, q + 1, slots', names + [name])
  {
  }

  lemma ScanEnd(data: Text, len: nat, anonymous: bool, q: nat, start: nat, slots: Slots, names: seq<string>)
    requires q > start + len
    ensures Scan(data, len, anonymous, q, start, slots, names) == Done(0, slots, data, names)
  {
  }

  // The channels of the server, `devInfo::pipe_index` of every developer.
  class PipeIndex {
    var pipes: Pipes

    method InsertAt(k: Key, fd: int)
      modifies this
      ensures pipes == Insert(old(pipes), k, fd)
    {
      if k !in pipes {
        pipes := pipes[k := []];
      }
      pipes := pipes[k := [fd] + pipes[k]];
    }

    method EraseAt(k: Key, fd: int)
      modifies this
      ensures pipes == Erase(old(pipes), k, fd)
    {
      if k in pipes {
        pipes := pipes[k := WithoutFirst(pipes[k], fd)];
      }
    }

    method Publish(k: Key, live: Live)
      modifies this
      ensures pipes == Published(old(pipes), k, live)
    {
      if k in pipes {
        pipes := pipes[k := OnlyLive(pipes[k], k.dev, live)];
      }
    }
  }

  class ClientConnection {
    const fd: int
    const dev: int
    var anonymous: bool
    var subscriptions: Slots
    var subscriptionsData: Text

    constructor (fd: int, dev: int, anonymous: bool)
      ensures this.fd == fd && this.dev == dev && this.anonymous == anonymous
      ensures forall i :: 0 <= i < MAX_PIPES ==> subscriptions[i].Empty?
    {
      this.fd, this.dev, this.anonymous := fd, dev, anonymous;
      subscriptions := seq(MAX_PIPES, _ => Empty);
      subscriptionsData := seq(DATA_LEN, _ => NUL);
    }

    // `ok` is false when a name is read on behind `subscriptions_data`.
    method UnSubscription(index: PipeIndex, live: Live) returns (ok: bool)
      modifies this`subscriptions, index
      ensures var taken := TakeBack(old(subscriptions), subscriptionsData, 0);
              && (ok <==> taken.Taken?)
              && (ok ==> && index.pipes == EraseAll(old(index.pipes), dev, fd, live, taken.names)
                         && subscriptions == Cleared(old(subscriptions)))
    {
      hide EndsInside, CStr;
      var i := 0;
      ghost var slots := subscriptions;
      ghost var whole := TakeBack(slots, subscriptionsData, 0);
      while i < MAX_PIPES && subscriptions[i].Name?
        invariant i <= MAX_PIPES && subscriptions == slots
        invariant var rest := TakeBack(slots, subscriptionsData, i);
                  && (whole.Taken? <==> rest.Taken?)
                  && (rest.Taken? ==> EraseAll(old(index.pipes), dev, fd, live, whole.names)
                                      == EraseAll(index.pipes, dev, fd, live, rest.names))
      {
        if !EndsInside(subscriptionsData, subscriptions[i].offset) {
          return false;
        }
        var name := CStr(subscriptionsData, subscriptions[i].offset);
        ghost var rest := TakeBack(slots, subscriptionsData, i + 1);
        assert rest.Taken? ==> ([name] + rest.names)[1..] == rest.names;
        index.EraseAt(Key(dev, name), fd);
        if IsTrack(name) {
          index.Publish(Key(dev, name), live);
        }
        i := i + 1;
      }
      assert TakeBack(slots, subscriptionsData, i) == Taken([]);
      ok, i := true, 0;
      ghost var pipes := index.pipes;
      while i < CLEARED_SLOTS
        invariant i <= CLEARED_SLOTS && index.pipes == pipes
        invariant forall j :: 0 <= j < MAX_PIPES ==> subscriptions[j] == if j < i then Empty else slots[j]
      {
        subscriptions := subscriptions[i := Empty];
        i := i + 1;
      }
    }

    // The name that starts at `start` ends at `p`: cut it off, store it in slot `i` and subscribe.
    method CutName(index: PipeIndex, live: Live, p: nat, start: nat, i: nat) returns (inserted: bool, name: string)
      requires p < DATA_LEN && start <= p && i < MAX_PIPES
      modifies this`subscriptions, index
      ensures subscriptions == old(subscriptions)[i := Name(start)]
      ensures name == CStr(subscriptionsData, start) && inserted == !(IsPrivate(name) && anonymous)
      ensures index.pipes == if inserted then InsertOne(old(index.pipes), dev, fd, live, name) else old(index.pipes)
    {
      subscriptions := subscriptions[i := Name(start)];
      name := CStr(subscriptionsData, start);
      inserted := false;
      if IsPrivate(name) && anonymous {
        return;
      }
      if IsTrack(name) {
        index.Publish(Key(dev, name), live);
      }
      index.InsertAt(Key(dev, name), fd);
      inserted := true;
    }

    // `ok` is false when the scan leaves `subscriptions_data`.
    method WsSubscription(index: PipeIndex, event: string, live: Live) returns (ok: bool, code: int)
      modifies this`subscriptions, this`subscriptionsData, index
      ensures var r := Subscribe(event, anonymous, old(subscriptions), old(subscriptionsData));
              && (ok <==> r.Done?)
              && (ok ==> && code == r.code && subscriptions == r.slots && subscriptionsData == r.data
                         && index.pipes == InsertAll(old(index.pipes), dev, fd, live, r.names))
    {
      assert index.pipes == InsertAll(index.pipes, dev, fd, live, []);
      hide CStr, InsertAll, InsertOne;
      ok, code := true, -1;
      if |event| <= DATA_LEN {
        subscriptionsData := Padded(event);
        ghost var r;
        ok, code, r := ScanList(index, |event|, live);
        assert Finished(r, ok, code, old(index.pipes), index.pipes, live);
      }
    }

    // The loop over the characters of the list.
    method ScanList(index: PipeIndex, len: nat, live: Live) returns (ok: bool, code: int, ghost r: Result)
      modifies this`subscriptions, this`subscriptionsData, index
      ensures r == Scan(old(subscriptionsData), len, anonymous, 0, 0, old(subscriptions), [])
      ensures Finished(r, ok, code, old(index.pipes), index.pipes, live)
    {
      assert index.pipes == InsertAll(index.pipes, dev, fd, live, []);
      r := Scan(subscriptionsData, len, anonymous, 0, 0, subscriptions, []);
      hide CStr, InsertAll, InsertOne, Scan, Finished;
      ghost var names: seq<string> := [];
      var start: nat, i: nat, p: nat := 0, 0, 0;   // p is the next character
      var stop := false;
      ok, code := true, 0;
      while p <= start + len
        invariant start <= p && i == |names|
        invariant r == Scan(subscriptionsData, len, anonymous, p, start, subscriptions, names)
        invariant index.pipes == InsertAll(old(index.pipes), dev, fd, live, names)
        decreases DATA_LEN - p
      {
        stop, ok, code, p, start, i, names := ScanChar(index, len, live, p, start, i, names, old(index.pipes));
        if stop {
          return;
        }
      }
      ScanEnd(subscriptionsData, len, anonymous, p, start, subscriptions, names);
      ok, code := true, 0;
      ScanDone(r, names, old(index.pipes), index.pipes, live);
    }

    // The answer and the state of the connection are those of the scan `r`.
    ghost predicate Finished(r: Result, ok: bool, code: int, before: Pipes, after: Pipes, live: Live)
      reads this
    {
      && (ok <==> r.Done?)
      && (ok ==> && code == r.code && subscriptions == r.slots && subscriptionsData == r.data
                 && after == InsertAll(before, dev, fd, live, r.names))
    }

    lemma ScanDone(r: Result, names: seq<string>, before: Pipes, after: Pipes, live: Live)
      requires r == Done(0, subscriptions, subscriptionsData, names) && after == InsertAll(before, dev, fd, live, names)
      ensures Finished(r, true, 0, before, after, live)
    {
    }

    // The name before the cut at `p0`, and where the scan goes on.
    method NextName(index: PipeIndex, live: Live, p0: nat, start0: nat, i0: nat, ghost names0: seq<string>,
                    ghost before: Pipes)
      returns (p: nat, start: nat, i: nat, ghost names: seq<string>)
      requires start0 <= p0 < DATA_LEN && i0 == |names0| < MAX_PIPES
      requires index.pipes == InsertAll(before, dev, fd, live, names0)
      modifies this`subscriptions, index
      ensures subscriptions == old(subscriptions)[i0 := Name(start0)]
      ensures var name := CStr(subscriptionsData, start0);
              if IsPrivate(name) && anonymous then p == p0 + 1 && start == start0 && names == names0
              else p == p0 + 2 && start == p0 + 1 && names == names0 + [name]
      ensures i == |names| && index.pipes == InsertAll(before, dev, fd, live, names)
    {
      hide CStr, InsertAll, InsertOne, IsPrivate;
      p, start, i, names := p0 + 1, start0, i0, names0;
      var inserted, name := CutName(index, live, p0, start, i);
      if inserted {
        InsertAllSnoc(before, dev, fd, live, names, name);
        names := names + [name];
        p := p + 1;
        i := i + 1;
        start := p - 1;
      }
    }

    // One round: the character at `p0`.
    method ScanChar(index: PipeIndex, len: nat, live: Live, p0: nat, start0: nat, i0: nat,
                    ghost names0: seq<string>, ghost before: Pipes)
      returns (stop: bool, ok: bool, code: int, p: nat, start: nat, i: nat, ghost names: seq<string>)
      requires start0 <= p0 <= start0 + len && i0 == |names0|
      requires index.pipes == InsertAll(before, dev, fd, live, names0)
      modifies this`subscriptions, this`subscriptionsData, index
      ensures var r := Scan(old(subscriptionsData), len, anonymous, p0, start0, old(subscriptions), names0);
              if stop then Finished(r, ok, code, before, index.pipes, live)
              else r == Scan(subscriptionsData, len, anonymous, p, start, subscriptions, names)
      ensures !stop ==> p0 < p && p0 < DATA_LEN && start <= p && i == |names|
      ensures !stop ==> index.pipes == InsertAll(before, dev, fd, live, names)
    {
      ScanRound(subscriptionsData, len, anonymous, p0, start0, subscriptions, names0);
      hide CStr, InsertAll, InsertOne, Scan, IsPrivate;
      stop, ok, code, p, start, i, names := false, true, 0, p0, start0, i0, names0;
      if p >= DATA_LEN {
        stop, ok := true, false;
      } else if !AZ09(subscriptionsData[p]) {
        stop, p, start, i, names := ScanCut(index, len, live, p0, start0, i0, names0, before);
      } else if p - start >= NAME_LEN {
        stop, code := true, -1;
      } else {
        p := p + 1;
      }
    }

    // A character that ends a name.
    method ScanCut(index: PipeIndex, ghost len: nat, live: Live, p0: nat, start0: nat, i0: nat,
                   ghost names0: seq<string>,
                   ghost before: Pipes)
      returns (stop: bool, p: nat, start: nat, i: nat, ghost names: seq<string>)
      requires start0 <= p0 <= start0 + len && i0 == |names0| && p0 < DATA_LEN && !AZ09(subscriptionsData[p0])
      requires index.pipes == InsertAll(before, dev, fd, live, names0)
      modifies this`subscriptions, this`subscriptionsData, index
      ensures var r := Scan(old(subscriptionsData), len, anonymous, p0, start0, old(subscriptions), names0);
              if stop then Finished(r, true, 0, before, index.pipes, live)
              else r == Scan(subscriptionsData, len, anonymous, p, start, subscriptions, names)
      ensures !stop ==> p0 < p && start <= p && i == |names| && index.pipes == InsertAll(before, dev, fd, live, names)
    {
      ScanRound(subscriptionsData, len, anonymous, p0, start0, subscriptions, names0);
      hide CStr, InsertAll, InsertOne, Scan, IsPrivate, AZ09;
      stop, p, start, i, names := false, p0, start0, i0, names0;
      subscriptionsData := subscriptionsData[p := NUL];
      if p - start < 2 || i >= MAX_PIPES {
        stop := true;
      } else {
        p, start, i, names := NextName(index, live, p, start, i, names, before);
      }
    }
  }
}
