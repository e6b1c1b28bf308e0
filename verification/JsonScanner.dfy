/** The scanner: one pass over the bytes by mutually recursive methods on
    shared position, depth, whitespace flag and per-depth key slots, proved to
    do what JsonParse says. */
module JsonScanner {
  import opened Bytes
  import opened JsonStrings
  import opened JsonGrammar
  import opened JsonParse
  import opened JsonScans

  const LINEAR_KEYS := 64

  /** A key's bytes in the text when they are its decoded form already, or the
      decoded key. */
  datatype KeyRef = KeyRef(start: nat, end: nat, plain: bool, decoded: bytes)

  ghost predicate InText(data: bytes, k: KeyRef) { k.start <= k.end <= |data| }

  function KeyString(data: bytes, k: KeyRef): bytes
    requires InText(data, k)
  {
    if k.plain then Slice(data, k.start, k.end) else k.decoded
  }

  ghost predicate AllInText(data: bytes, ks: seq<KeyRef>) { forall i :: 0 <= i < |ks| ==> InText(data, ks[i]) }

  ghost function Names(data: bytes, ks: seq<KeyRef>): set<bytes>
    requires AllInText(data, ks)
  {
    set i | 0 <= i < |ks| :: KeyString(data, ks[i])
  }

  /** The keys an object has so far, from its slot or from the map that
      replaces it once it holds LINEAR_KEYS. */
  ghost predicate Known(data: bytes, slot: seq<KeyRef>, useMap: bool, byName: set<bytes>, seen: set<bytes>) {
    AllInText(data, slot) && (if useMap then byName == seen else Names(data, slot) == seen && |slot| < LINEAR_KEYS)
  }

  /** Slots below depth are as they were. */
  ghost predicate KeptBelow(before: seq<seq<KeyRef>>, after: seq<seq<KeyRef>>, depth: nat) {
    |before| <= |after| && forall i :: 0 <= i < |before| && i < depth ==> after[i] == before[i]
  }

  class Scanner {
    const data: bytes
    const fits: FloatRange
    const wantFields: bool
    const wantElements: bool
    var pos: nat
    var depth: nat
    var spaced: bool
    var keys: seq<seq<KeyRef>>
    var top: seq<Field>
    var elements: seq<Span>

    /** A scanner from the pool brings any number of slots along. */
    constructor (raw: bytes, fits: FloatRange, wantFields: bool, wantElements: bool, pooled: seq<seq<KeyRef>>)
      ensures data == raw && this.fits == fits && this.wantFields == wantFields && this.wantElements == wantElements
      ensures pos == 0 && depth == 0 && !spaced && top == [] && elements == []
    {
      data, this.fits, this.wantFields, this.wantElements := raw, fits, wantFields, wantElements;
      pos, depth, spaced, keys, top, elements := 0, 0, false, pooled, [], [];
    }

    method Space()
      requires pos <= |data|
      modifies this`pos, this`spaced
      ensures pos == SpaceEnd(data, old(pos)) && spaced == (old(spaced) || pos > old(pos))
    {
      while pos < |data| && IsSpace(data[pos])
        invariant old(pos) <= pos <= |data| && SpaceEnd(data, pos) == SpaceEnd(data, old(pos))
        invariant spaced == (old(spaced) || pos > old(pos))
      {
        pos := pos + 1;
        spaced := true;
      }
    }

    method Literal(word: bytes) returns (ok: bool)
      requires pos <= |data| && |word| > 0
      modifies this`pos
      ensures ok <==> ParseWord(data, old(pos), word).Good?
      ensures ok ==> pos == ParseWord(data, old(pos), word).end
    {
      if |data| - pos < |word| || data[pos..pos + |word|] != word {
        return false;
      }
      pos := pos + |word|;
      ok := true;
    }

    method ScanDigits() returns (ok: bool)
      requires pos <= |data|
      modifies this`pos
      ensures pos == DigitsEnd(data, old(pos)) && (ok <==> pos > old(pos))
    {
      var start := pos;
      while pos < |data| && IsDigit(data[pos])
        invariant start <= pos <= |data| && DigitsEnd(data, pos) == DigitsEnd(data, start)
      {
        pos := pos + 1;
      }
      ok := pos > start;
    }

    method ScanWhole() returns (ok: bool)
      requires pos <= |data|
      modifies this`pos
      ensures ok <==> WholeEnd(data, old(pos)) >= 0
      ensures ok ==> pos == WholeEnd(data, old(pos))
    {
      if pos < |data| && data[pos] == ZERO {
        pos := pos + 1;
        return true;
      }
      if pos < |data| && 0x31 <= data[pos] <= 0x39 {
        ok := ScanDigits();
        return true;
      }
      ok := false;
    }

    method ScanFrac() returns (ok: bool)
      requires pos <= |data|
      modifies this`pos
      ensures ok <==> FracEnd(data, old(pos)) >= 0
      ensures ok ==> pos == FracEnd(data, old(pos))
    {
      ok := true;
      if pos < |data| && data[pos] == DOT {
        pos := pos + 1;
        ok := ScanDigits();
      }
    }

    method ScanExp() returns (exponent: bool, ok: bool)
      requires pos <= |data|
      modifies this`pos
      ensures ok <==> ExpEnd(data, old(pos)) >= 0
      ensures ok ==> pos == ExpEnd(data, old(pos)) && (exponent <==> pos > old(pos))
    {
      exponent, ok := false, true;
      if pos < |data| && IsE(data[pos]) {
        exponent := true;
        pos := pos + 1;
        if pos < |data| && IsSign(data[pos]) {
          pos := pos + 1;
        }
        ok := ScanDigits();
      }
    }

    method ScanNumber() returns (ok: bool)
      requires pos < |data|
      modifies this`pos
      ensures ok <==> ParseNumber(fits, data, old(pos)).Good?
      ensures ok ==> pos == ParseNumber(fits, data, old(pos)).end
    {
      hide WholeEnd, FracEnd, ExpEnd, Slice;
      var start := pos;
      if data[pos] == MINUS {
        pos := pos + 1;
      }
      ok := ScanWhole();
      if !ok {
        return;
      }
      ok := ScanFrac();
      if !ok {
        return;
      }
      var exponent;
      exponent, ok := ScanExp();
      if ok && (exponent || pos - start > 15) {
        ok := fits(Slice(data, start, pos));
      }
    }

    /** The string whose opening quote is at pos: the span of its contents and
        whether they are already decoded. */
    method ScanString() returns (start: nat, end: nat, plain: bool, ok: bool)
      requires pos < |data|
      modifies this`pos
      ensures ok <==> StringEnd(data, old(pos) + 1) >= 0
      ensures ok ==> start == old(pos) + 1 && end == StringEnd(data, start) && pos == end + 1
      ensures ok ==> start <= end <= |data| && (plain <==> forall i :: start <= i < end ==> IsPlain(data[i]))
    {
      pos := pos + 1;
      start, end, plain := pos, pos, true;
      while pos < |data|
        invariant start <= pos <= |data| && StringEnd(data, pos) == StringEnd(data, start)
        invariant plain <==> forall i :: start <= i < pos ==> IsPlain(data[i])
      {
        var c := data[pos];
        if c == QUOTE {
          end := pos;
          pos := pos + 1;
          return start, end, plain, true;
        } else if c == BACKSLASH {
          plain := false;
          assert !IsPlain(data[pos]);
          if pos + 1 >= |data| {
            return start, end, plain, false;
          }
          if IsShort(data[pos + 1]) {
            pos := pos + 2;
          } else if data[pos + 1] == LOWER_U {
            if |data| - pos < 6
              || !(IsHex(data[pos + 2]) && IsHex(data[pos + 3]) && IsHex(data[pos + 4]) && IsHex(data[pos + 5])) {
              return start, end, plain, false;
            }
            pos := pos + 6;
          } else {
            return start, end, plain, false;
          }
        } else if c < 0x20 {
          return start, end, plain, false;
        } else {
          if c >= 0x80 {
            plain := false;
          }
          pos := pos + 1;
        }
      }
      ok := false;
    }

    /** The keys of the object being scanned at this depth, and whether a new
        one is among them; LINEAR_KEYS of them move to a map. */
    method NoteKey(key: KeyRef, useMap: bool, byName: set<bytes>, ghost seen: set<bytes>)
      returns (isNew: bool, useMap': bool, byName': set<bytes>)
      requires depth < |keys| && InText(data, key) && Known(data, keys[depth], useMap, byName, seen)
      modifies this`keys
      ensures isNew <==> KeyString(data, key) !in seen
      ensures |keys| == |old(keys)| && KeptBelow(old(keys), keys, depth)
      ensures isNew ==> Known(data, keys[depth], useMap', byName', seen + {KeyString(data, key)})
    {
      var name := KeyString(data, key);
      useMap', byName' := useMap, byName;
      if useMap {
        isNew := name !in byName;
        byName' := byName + {name};
        return;
      }
      var slot := keys[depth];
      for i := 0 to |slot|
        invariant forall j :: 0 <= j < i ==> KeyString(data, slot[j]) != name
      {
        if KeyString(data, slot[i]) == name {
          return false, useMap, byName;
        }
      }
      keys := keys[depth := slot + [key]];
      NamesAdd(data, slot, key);
      isNew := true;
      if |slot| + 1 == LINEAR_KEYS {
        useMap' := true;
        byName' := set i | 0 <= i < |slot| + 1 :: KeyString(data, (slot + [key])[i]);
      }
    }

    /** value: dispatch on the first byte. */
    method Value() returns (ok: bool)
      requires pos <= |data| && ShortNumbersFit(fits)
      modifies this
      ensures ok <==> ParseValue(fits, data, old(pos), old(depth)).Good?
      ensures ok ==>
        Scanned(ParseValue(fits, data, old(pos), old(depth)), old(pos), old(depth), old(spaced), old(keys), old(top),
          old(elements))
      decreases |data| - pos, 1
    {
      hide ParseArray, ParseObject, ParseNumber, ShortNumbersFit;
      if pos >= |data| {
        return false;
      }
      var c := data[pos];
      if c == LBRACE {
        ok := Object();
      } else if c == LBRACKET {
        ok := Array();
      } else if c == QUOTE {
        var start, end, plain;
        start, end, plain, ok := ScanString();
      } else if c == TRUE[0] {
        ok := Literal(TRUE);
      } else if c == FALSE[0] {
        ok := Literal(FALSE);
      } else if c == NULL[0] {
        ok := Literal(NULL);
      } else if c == MINUS || IsDigit(c) {
        ok := ScanNumber();
      } else {
        ok := false;
      }
    }

    /** What the scanner's fields are after a value was scanned. */
    ghost predicate Scanned(r: Parsed<Value>, p: nat, d: nat, wasSpaced: bool, ks: seq<seq<KeyRef>>, fs: seq<Field>,
        es: seq<Span>)
      reads this
    {
      && r.Good? && pos == r.end <= |data| && depth == d && KeptBelow(ks, keys, d + 1)
      && spaced == (wasSpaced || !Tight(r.tree))
      && top == (if wantFields && d == 0 && r.tree.Object? then fs + FieldsOf(r.tree.members, p + 1) else fs)
      && elements == (if wantElements && d == 0 && r.tree.Array? then es + SpansOf(r.tree.items, p + 1) else es)
    }

    /** What the fields are once the closing bracket of a container at depth d
        was passed. */
    ghost predicate Closed<T>(r: Scan<T>, d: nat, wasSpaced: bool, ks: seq<seq<KeyRef>>)
      reads this
    {
      && r.Done? && pos == r.end <= |data| && depth == d - 1 && KeptBelow(ks, keys, d)
      && spaced == (wasSpaced || !r.tight)
    }

    method Array() returns (ok: bool)
      requires pos < |data| && data[pos] == LBRACKET && ShortNumbersFit(fits)
      modifies this
      ensures ok <==> ParseArray(fits, data, old(pos), old(depth)).Good?
      ensures ok ==>
        Scanned(ParseArray(fits, data, old(pos), old(depth)), old(pos), old(depth), old(spaced), old(keys), old(top),
          old(elements))
      decreases |data| - pos, 0
    {
      hide ParseArray, ScanItems, SpansOf, Tight, SpaceEnd, ShortNumbersFit, Spaces;
      ArrayUnfold(fits, data, pos, depth);
      depth := depth + 1;
      if depth > MAX_DEPTH {
        return false;
      }
      ghost var p := pos + 1;
      pos := pos + 1;
      Space();
      if pos < |data| && data[pos] == RBRACKET {
        assert elements + [] == elements;
        pos := pos + 1;
        depth := depth - 1;
        return true;
      }
      TightFromStart(fits, data, p, depth, {});
      ok := Elements(p);
      assert old(elements) + [] == old(elements);
    }

    /** The loop of array, from the first element to past the bracket. */
    method Elements(ghost p0: nat) returns (ok: bool)
      requires p0 <= |data| && pos == SpaceEnd(data, p0) && depth > 0 && ShortNumbersFit(fits)
      requires pos > p0 ==> spaced
      modifies this
      ensures ok <==> ScanItems(fits, data, p0, old(depth)).Done?
      ensures ok ==> Closed(ScanItems(fits, data, p0, old(depth)), old(depth), old(spaced), old(keys))
      ensures ok ==> top == old(top)
      ensures ok ==>
        elements == old(elements)
          + (if wantElements && old(depth) == 1 then ScanItems(fits, data, p0, old(depth)).found else [])
      decreases |data| - pos, 3
    {
      hide ScanItems, SpaceEnd, ShortNumbersFit, Spaces;
      var d := depth;
      ghost var whole := ScanItems(fits, data, p0, d);
      ghost var p: nat, tight, found := p0, true, [];
      var more := true;
      while more
        invariant more ==> old(pos) <= pos <= |data| && p <= |data| && pos == SpaceEnd(data, p) && depth == d
        invariant more ==> (pos > p ==> spaced) && spaced == (old(spaced) || !tight || pos > p)
        invariant more ==> whole == Prepend(tight, found, ScanItems(fits, data, p, d))
        invariant !more ==> whole == Done(pos, tight, found) && depth == d - 1 && spaced == (old(spaced) || !tight)
        invariant pos <= |data| && KeptBelow(old(keys), keys, d) && top == old(top)
        invariant elements == if wantElements && d == 1 then old(elements) + found else old(elements)
        decreases more, |data| - pos
      {
        ghost var t, f := tight, found;
        ghost var first, u;
        assert old(elements) + f + [] == old(elements) + f;
        ok, more, first, p, u := Element(p);
        if !ok {
          return;
        }
        tight, found := t && u, f + [first];
        if more {
          PrependTwice(t, f, u, [first], ScanItems(fits, data, p, d));
        } else {
          assert Prepend(t, f, Done(pos, u, [first])) == Done(pos, tight, found);
        }
      }
      ok := true;
    }

    /** One turn of the loop of array: an element, the whitespace after it, and
        the comma or bracket. */
    method Element(ghost p: nat) returns (ok: bool, more: bool, ghost span: Span, ghost p': nat, ghost tight: bool)
      requires p <= |data| && pos == SpaceEnd(data, p) && depth > 0 && ShortNumbersFit(fits)
      requires pos > p ==> spaced
      modifies this
      ensures !ok ==> ScanItems(fits, data, p, old(depth)) == Fail
      ensures ok ==> pos <= |data| && KeptBelow(old(keys), keys, old(depth) + 1) && top == old(top)
      ensures ok ==> elements == if wantElements && old(depth) == 1 then old(elements) + [span] else old(elements)
      ensures ok && tight ==> old(pos) == p
      ensures ok && more ==> pos > old(pos) && p' <= |data| && pos == SpaceEnd(data, p') && depth == old(depth)
      ensures ok && more ==> ScanItems(fits, data, p, depth) == Prepend(tight, [span], ScanItems(fits, data, p', depth))
      ensures ok && more ==> spaced == (old(spaced) || !tight || pos > p')
      ensures ok && !more ==> ScanItems(fits, data, p, old(depth)) == Done(pos, tight, [span])
      ensures ok && !more ==> depth == old(depth) - 1 && spaced == (old(spaced) || !tight)
      decreases |data| - pos, 2
    {
      hide ScanItems, ParseValue, SpaceEnd, ShortNumbersFit, Tight, Spaces;
      more, span, p', tight := false, Span(0, 0), p, true;
      var start, d := pos, depth;
      ok := Value();
      if !ok {
        ItemsBad(fits, data, p, d);
        return;
      }
      ghost var v, e := ParseValue(fits, data, start, d).tree, pos;
      span := Span(start, e);
      if d == 1 && wantElements {
        elements := elements + [Span(start, pos)];
      }
      Space();
      ItemsScanStep(fits, data, p, d, start, v, e, pos);
      tight := start == p && pos == e && Tight(v);
      if pos < |data| && data[pos] == COMMA {
        pos := pos + 1;
        p' := pos;
        Space();
        more := true;
      } else if pos < |data| && data[pos] == RBRACKET {
        pos := pos + 1;
        depth := depth - 1;
      } else {
        ok := false;
      }
    }

    /** Empties this depth's slot, making it when there is none yet. */
    method OpenSlot()
      modifies this`keys
      ensures depth < |keys| && keys[depth] == [] && KeptBelow(old(keys), keys, depth)
    {
      while |keys| <= depth
        invariant KeptBelow(old(keys), keys, |old(keys)|)
      {
        keys := keys + [[]];
      }
      keys := keys[depth := []];
    }

    method Object() returns (ok: bool)
      requires pos < |data| && data[pos] == LBRACE && ShortNumbersFit(fits)
      modifies this
      ensures ok <==> ParseObject(fits, data, old(pos), old(depth)).Good?
      ensures ok ==>
        Scanned(ParseObject(fits, data, old(pos), old(depth)), old(pos), old(depth), old(spaced), old(keys), old(top),
          old(elements))
      decreases |data| - pos, 0
    {
      hide ParseObject, ScanMembers, FieldsOf, Tight, SpaceEnd, ShortNumbersFit, Spaces;
      ObjectUnfold(fits, data, pos, depth);
      depth := depth + 1;
      if depth > MAX_DEPTH {
        return false;
      }
      ghost var p := pos + 1;
      pos := pos + 1;
      Space();
      if pos < |data| && data[pos] == RBRACE {
        assert top + [] == top;
        pos := pos + 1;
        depth := depth - 1;
        return true;
      }
      TightFromStart(fits, data, p, depth, {});
      ok := AllMembers(p);
      assert old(top) + [] == old(top);
    }

    /** The loop of object, from the first key to past the brace. */
    method AllMembers(ghost p0: nat) returns (ok: bool)
      requires p0 <= |data| && pos == SpaceEnd(data, p0) && depth > 0 && ShortNumbersFit(fits)
      requires pos > p0 ==> spaced
      modifies this
      ensures ok <==> ScanMembers(fits, data, p0, old(depth), {}).Done?
      ensures ok ==> Closed(ScanMembers(fits, data, p0, old(depth), {}), old(depth), old(spaced), old(keys))
      ensures ok ==> elements == old(elements)
      ensures ok ==>
        top == old(top)
          + (if wantFields && old(depth) == 1 then ScanMembers(fits, data, p0, old(depth), {}).found else [])
      decreases |data| - pos, 4
    {
      hide ScanMembers, SpaceEnd, ShortNumbersFit, Spaces, Known;
      var d := depth;
      ghost var whole := ScanMembers(fits, data, p0, d, {});
      ghost var p: nat, tight, found, seen := p0, true, [], {};
      var useMap, byName := false, {};
      OpenSlot();
      NothingKnown(data);
      var more := true;
      while more
        invariant more ==> old(pos) <= pos <= |data| && p <= |data| && pos == SpaceEnd(data, p) && depth == d
        invariant more ==> (pos > p ==> spaced) && spaced == (old(spaced) || !tight || pos > p)
        invariant more ==> whole == Prepend(tight, found, ScanMembers(fits, data, p, d, seen))
        invariant more ==> d < |keys| && Known(data, keys[d], useMap, byName, seen)
        invariant !more ==> whole == Done(pos, tight, found) && depth == d - 1 && spaced == (old(spaced) || !tight)
        invariant pos <= |data| && KeptBelow(old(keys), keys, d) && elements == old(elements)
        invariant top == if wantFields && d == 1 then old(top) + found else old(top)
        decreases more, |data| - pos
      {
        ghost var t, f := tight, found;
        ghost var first, u;
        ok, more, useMap, byName, first, p, u, seen := OneMember(p, useMap, byName, seen);
        if !ok {
          return;
        }
        tight, found := t && u, f + [first];
        if more {
          PrependTwice(t, f, u, [first], ScanMembers(fits, data, p, d, seen));
        } else {
          assert Prepend(t, f, Done(pos, u, [first])) == Done(pos, tight, found);
        }
      }
      ok := true;
    }

    /** The key of a member, from its opening quote, checked against the keys
        before it, and the colon. */
    method Key(ghost p: nat, useMap: bool, byName: set<bytes>, ghost seen: set<bytes>)
      returns (ok: bool, useMap': bool, byName': set<bytes>, key: KeyRef)
      requires p <= |data| && pos == SpaceEnd(data, p) && depth < |keys|
        && Known(data, keys[depth], useMap, byName, seen)
      modifies this`pos, this`spaced, this`keys
      ensures |keys| == |old(keys)| && KeptBelow(old(keys), keys, depth)
      ensures ok <==>
        ParseKey(data, p).KeyAt? && Decode(Slice(data, ParseKey(data, p).start, ParseKey(data, p).end)) !in seen
      ensures ok ==> var k := ParseKey(data, p);
        && pos == k.colon + 1 && spaced == (old(spaced) || k.colon > k.end + 1)
        && InText(data, key) && KeyString(data, key) == Decode(Slice(data, k.start, k.end))
        && Known(data, keys[depth], useMap', byName', seen + {Decode(Slice(data, k.start, k.end))})
    {
      hide SpaceEnd, StringEnd, Slice, Spaces, Known, Decode;
      ok, useMap', byName', key := false, useMap, byName, KeyRef(0, 0, true, []);
      if pos >= |data| || data[pos] != QUOTE {
        return;
      }
      var start, end, plain, closed := ScanString();
      if !closed {
        return;
      }
      key := KeyRef(start, end, plain, if plain then [] else Decode(Slice(data, start, end)));
      if plain {
        PlainKey(data, start, end);
      }
      ok, useMap', byName' := NoteKey(key, useMap, byName, seen);
      if !ok {
        return;
      }
      Space();
      if pos >= |data| || data[pos] != COLON {
        ok := false;
        return;
      }
      pos := pos + 1;
    }

    /** One turn of the loop of object. */
    method OneMember(ghost p: nat, useMap: bool, byName: set<bytes>, ghost seen: set<bytes>)
      returns (ok: bool, more: bool, useMap': bool, byName': set<bytes>,
        ghost field: Field, ghost p': nat, ghost tight: bool, ghost seen': set<bytes>)
      requires p <= |data| && pos == SpaceEnd(data, p) && depth > 0 && ShortNumbersFit(fits)
      requires (pos > p ==> spaced) && depth < |keys| && Known(data, keys[depth], useMap, byName, seen)
      modifies this
      ensures !ok ==> ScanMembers(fits, data, p, old(depth), seen) == Fail
      ensures ok ==> pos <= |data| && KeptBelow(old(keys), keys, old(depth)) && elements == old(elements)
      ensures ok ==> top == if wantFields && old(depth) == 1 then old(top) + [field] else old(top)
      ensures ok && tight ==> old(pos) == p
      ensures ok && more ==> pos > old(pos) && p' <= |data| && pos == SpaceEnd(data, p') && depth == old(depth)
      ensures ok && more ==>
        ScanMembers(fits, data, p, depth, seen) == Prepend(tight, [field], ScanMembers(fits, data, p', depth, seen'))
      ensures ok && more ==> spaced == (old(spaced) || !tight || pos > p')
      ensures ok && more ==> depth < |keys| && Known(data, keys[depth], useMap', byName', seen')
      ensures ok && !more ==> ScanMembers(fits, data, p, old(depth), seen) == Done(pos, tight, [field])
      ensures ok && !more ==> depth == old(depth) - 1 && spaced == (old(spaced) || !tight)
      decreases |data| - pos, 3
    {
      hide ScanMembers, ParsePair, PairTight, SpaceEnd, ShortNumbersFit, Spaces, Known;
      more, field, p', tight, seen' := false, Field([], 0, 0), p, true, seen;
      var d := depth;
      ghost var m := ParsePair(fits, data, p, d, seen);
      ok, useMap', byName' := Pair(p, useMap, byName, seen);
      if !ok {
        MembersFail(fits, data, p, d, seen);
        return;
      }
      field, seen' := Field(m.name, m.l, m.f), seen + {m.name};
      Space();
      MembersScanStep(fits, data, p, d, seen, m, pos);
      PairFromStart(fits, data, p, d, seen);
      tight := PairTight(p, m) && pos == m.f;
      if pos < |data| && data[pos] == COMMA {
        pos := pos + 1;
        p' := pos;
        Space();
        more := true;
      } else if pos < |data| && data[pos] == RBRACE {
        pos := pos + 1;
        depth := depth - 1;
        keys := keys[d := []];
      } else {
        ok := false;
      }
    }

    /** A key, its colon and its value, recorded when the object is the
        top-level one. */
    method Pair(ghost p: nat, useMap: bool, byName: set<bytes>, ghost seen: set<bytes>)
      returns (ok: bool, useMap': bool, byName': set<bytes>)
      requires p <= |data| && pos == SpaceEnd(data, p) && depth > 0 && ShortNumbersFit(fits)
      requires (pos > p ==> spaced) && depth < |keys| && Known(data, keys[depth], useMap, byName, seen)
      modifies this
      ensures ok <==> ParsePair(fits, data, p, old(depth), seen).PairAt?
      ensures ok ==>
        var m := ParsePair(fits, data, p, old(depth), seen);
        && pos == m.f && old(pos) < pos && depth == old(depth) && spaced == (old(spaced) || !PairTight(p, m))
        && KeptBelow(old(keys), keys, depth) && depth < |keys|
        && Known(data, keys[depth], useMap', byName', seen + {m.name})
        && elements == old(elements)
        && top == if wantFields && depth == 1 then old(top) + [Field(m.name, m.l, m.f)] else old(top)
      decreases |data| - pos, 2
    {
      hide ParseValue, ParseKey, SpaceEnd, Slice, ShortNumbersFit, Tight, Spaces, Known, Decode, KeyString;
      var d := depth;
      var key;
      ok, useMap', byName', key := Key(p, useMap, byName, seen);
      if !ok {
        return;
      }
      Space();
      var start := pos;
      ok := Value();
      if !ok {
        return;
      }
      if d == 1 && wantFields {
        top := top + [Field(KeyString(data, key), start, pos)];
      }
    }
  }

  lemma NothingKnown(data: bytes)
    ensures Known(data, [], false, {}, {})
  {
  }

  /** Plain bytes are already the decoded key. */
  lemma PlainKey(data: bytes, start: nat, end: nat)
    requires start <= end <= |data| && forall i :: start <= i < end ==> IsPlain(data[i])
    ensures Decode(Slice(data, start, end)) == Slice(data, start, end)
  {
    var b := Slice(data, start, end);
    DecodePlainRun(b, |b|);
    assert b[..|b|] == b && b[|b|..] == [] && Decode([]) == [] && b + [] == b;
  }

  lemma NamesAdd(data: bytes, slot: seq<KeyRef>, key: KeyRef)
    requires AllInText(data, slot) && InText(data, key)
    ensures AllInText(data, slot + [key])
    ensures Names(data, slot + [key]) == Names(data, slot) + {KeyString(data, key)}
  {
    var all := slot + [key];
    assert forall i :: 0 <= i < |slot| ==> all[i] == slot[i];
    assert all[|slot|] == key;
  }
}
