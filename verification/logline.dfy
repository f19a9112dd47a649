/**
 * A record: a text indexed by its separators, overlaid with the fields that were written. It is
 * proved to behave like a plain list of fields.
 */
module LogLines {
  import opened Bytes
  import opened FieldText
  import LineText

  const NUM_FIELDS: nat := 3000
  const NUM_CUSTOM: nat := 100
  const MAX_WRITES: nat := 255

  /** A byte slice, which may be nil. */
  datatype Slice = Nil | Bytes(b: Text)

  function TextOf(s: Slice): Text {
    match s
    case Nil => []
    case Bytes(b) => b
  }

  /** Conversion to a 32-bit integer, wrapping around. */
  function Int32(x: int): int {
    (x + 0x8000_0000) % 0x1_0000_0000 - 0x8000_0000
  }

  /** p is what t holds strictly between positions a and b. */
  ghost predicate Between(t: Text, a: int, b: int, p: Text) {
    -1 <= a < b <= |t| && p == t[a + 1..b]
  }

  /** Piece k of ps lies between positions cuts[k] and cuts[k + 1] of t. */
  ghost predicate Indexed(cuts: seq<int>, t: Text, ps: seq<Text>) {
    && |cuts| == |ps| + 1 && cuts[0] == -1 && cuts[|ps|] == |t|
    && forall k | 0 <= k < |ps| :: Between(t, cuts[k], cuts[k + 1], ps[k])
  }

  lemma BetweenLonger(t: Text, c: byte, a: int, b: int, p: Text)
    requires Between(t, a, b, p)
    ensures Between(t + [c], a, b, p)
  {
    assert (t + [c])[a + 1..b] == t[a + 1..b];
  }

  /** The first i bytes of the text are cut into ps, the last piece being open. */
  ghost predicate Scanned(text: Text, i: nat, sep: byte, cuts: seq<int>, ps: seq<Text>) {
    i <= |text| && ps == Split(text[..i], sep) && Indexed(cuts + [i], text[..i], ps)
  }

  lemma ScanStep(text: Text, i: nat, sep: byte, cuts: seq<int>, ps: seq<Text>)
    requires i < |text| && Scanned(text, i, sep, cuts, ps)
    ensures Scanned(text, i + 1, sep, if text[i] == sep then cuts + [i] else cuts, Extend(ps, text[i], sep))
  {
    assert text[..i + 1] == text[..i] + [text[i]];
    SplitSnoc(text[..i], text[i], sep);
    if text[i] == sep {
      ScanSeparator(cuts, text[..i], ps, sep);
    } else {
      ScanOther(cuts, text[..i], ps, text[i], sep);
    }
  }

  lemma ScanOther(cuts: seq<int>, t: Text, ps: seq<Text>, c: byte, sep: byte)
    requires ps != [] && Indexed(cuts + [|t|], t, ps) && c != sep
    ensures Indexed(cuts + [|t| + 1], t + [c], Extend(ps, c, sep))
  {
    var was, now, qs := cuts + [|t|], cuts + [|t| + 1], Extend(ps, c, sep);
    forall k | 0 <= k < |qs| ensures Between(t + [c], now[k], now[k + 1], qs[k]) {
      assert Between(t, was[k], was[k + 1], ps[k]);
      BetweenLonger(t, c, was[k], was[k + 1], ps[k]);
      if k == |qs| - 1 {
        assert (t + [c])[now[k] + 1..] == t[now[k] + 1..] + [c];
      }
    }
  }

  lemma ScanSeparator(cuts: seq<int>, t: Text, ps: seq<Text>, sep: byte)
    requires ps != [] && Indexed(cuts + [|t|], t, ps)
    ensures Indexed(cuts + [|t|] + [|t| + 1], t + [sep], Extend(ps, sep, sep))
  {
    var was, now, qs := cuts + [|t|], cuts + [|t|] + [|t| + 1], Extend(ps, sep, sep);
    forall k | 0 <= k < |qs| ensures Between(t + [sep], now[k], now[k + 1], qs[k]) {
      if k < |ps| {
        assert Between(t, was[k], was[k + 1], ps[k]);
        BetweenLonger(t, sep, was[k], was[k + 1], ps[k]);
      }
    }
  }

  class LogLine {
    const idx: array<int>
    var data: Slice
    const wmask: array<nat>
    const wdata: array<Slice>
    var wcnt: nat
    const sep: byte

    ghost predicate Shaped()
      reads this, idx, wmask, wdata
    {
      && idx.Length == NUM_FIELDS + 1
      && wmask.Length == NUM_FIELDS + NUM_CUSTOM
      && wdata.Length == MAX_WRITES + 1
      && wcnt <= MAX_WRITES
    }

    /** The table of written fields sends each of them to an entry of its own. */
    ghost predicate Overlaid()
      requires Shaped()
      reads this, idx, wmask, wdata
    {
      && (forall f | 0 <= f < wmask.Length :: wmask[f] <= wcnt)
      && (forall f, g | 0 <= f < g < wmask.Length :: wmask[f] == wmask[g] ==> wmask[f] == 0)
    }

    ghost predicate Valid()
      reads this, idx, wmask, wdata
    {
      && Shaped() && Overlaid()
      && match data
         case Nil => forall k | 0 <= k < idx.Length :: idx[k] == 0
         case Bytes(t) =>
           && |Split(t, sep)| <= NUM_FIELDS && Tabled(t, Split(t, sep))
           && forall k | |Split(t, sep)| < k < idx.Length :: idx[k] == 0
    }

    /** Entry k of the index table is where piece k begins, one position early. */
    ghost predicate Tabled(t: Text, ps: seq<Text>)
      requires |ps| < idx.Length
      reads idx
    {
      && idx[0] == -1 && idx[|ps|] == |t|
      && forall k {:trigger ps[k]} | 0 <= k < |ps| :: Between(t, idx[k], idx[k + 1], ps[k])
    }

    lemma TableIs(t: Text, ps: seq<Text>, cuts: seq<int>)
      requires |cuts| <= idx.Length && idx[..|cuts|] == cuts && Indexed(cuts, t, ps)
      ensures Tabled(t, ps)
    {
      assert forall k | 0 <= k < |cuts| :: idx[k] == cuts[k];
    }

    /** As constructed or cleared. */
    ghost predicate Fresh()
      reads this, idx, wmask, wdata
    {
      && Shaped() && data == Nil && wcnt == 0
      && (forall k | 0 <= k < idx.Length :: idx[k] == 0)
      && (forall f | 0 <= f < wmask.Length :: wmask[f] == 0)
    }

    // -------------------------------------------------------------- the list of fields

    ghost function Pieces(): seq<Text>
      reads this
    {
      match data
      case Nil => []
      case Bytes(t) => Split(t, sep)
    }

    /** The value of a field: what was written, else what was parsed. */
    ghost function Field(f: nat): Slice
      requires Shaped() && Overlaid() && f < NUM_FIELDS + NUM_CUSTOM
      reads this, idx, wmask, wdata
    {
      if wmask[f] != 0 then wdata[wmask[f]]
      else if f < NUM_FIELDS && Piece(Pieces(), f) != [] then Bytes(Piece(Pieces(), f))
      else Nil
    }

    constructor (sep: byte)
      ensures Valid() && Fresh() && this.sep == sep
      ensures fresh(idx) && fresh(wmask) && fresh(wdata)
    {
      this.sep := sep;
      idx := new int[NUM_FIELDS + 1](_ => 0);
      wmask := new nat[NUM_FIELDS + NUM_CUSTOM](_ => 0);
      wdata := new Slice[MAX_WRITES + 1](_ => Nil);
      data, wcnt := Nil, 0;
    }

    /** What the index table says about field f. */
    lemma ParsedField(f: nat)
      requires Valid() && f < NUM_FIELDS
      ensures f < |Pieces()| ==> Between(data.b, idx[f], idx[f + 1], Pieces()[f])
      ensures f >= |Pieces()| ==> idx[f + 1] <= idx[f] + 1
    {
    }

    method Get(f: nat) returns (r: Slice)
      requires Valid() && f < NUM_FIELDS + NUM_CUSTOM
      ensures r == Field(f)
    {
      var w := wmask[f];
      if w != 0 {
        return wdata[w];
      }
      if f >= NUM_FIELDS {
        return Nil;
      }
      ParsedField(f);
      var s, e := idx[f] + 1, idx[f + 1];
      if e - s < 1 {
        return Nil;
      }
      r := Bytes(data.b[s..e]);
    }

    /** Writes a field; a panic is due when 255 other fields were written before. */
    method Set(f: nat, value: Slice) returns (ok: bool)
      requires Shaped() && Overlaid() && f < NUM_FIELDS + NUM_CUSTOM
      modifies this`wcnt, wmask, wdata
      ensures ok <==> old(wmask[f]) != 0 || old(wcnt) < MAX_WRITES
      ensures ok ==> Shaped() && Overlaid() && Field(f) == value
      ensures ok ==> (Valid() <==> old(Valid()))
      ensures ok ==> forall g | 0 <= g < NUM_FIELDS + NUM_CUSTOM && g != f :: Field(g) == old(Field(g))
      ensures ok ==> wcnt == old(wcnt) + (if old(wmask[f]) == 0 then 1 else 0) && wmask[f] != 0
      ensures ok ==> forall g | 0 <= g < NUM_FIELDS + NUM_CUSTOM && g != f :: wmask[g] == old(wmask[g])
    {
      if wmask[f] != 0 {
        wdata[wmask[f]] := value;
        return true;
      }
      wcnt := (wcnt + 1) % 256;
      if wcnt == 0 {
        return false;
      }
      wmask[f] := wcnt;
      wdata[wcnt] := value;
      ok := true;
    }

    /** Records a position as a 32-bit integer. */
    method Note(fc: nat, i: nat, ghost cuts: seq<int>)
      requires fc < idx.Length && idx[..fc] == cuts && i < 0x8000_0000
      modifies idx
      ensures idx[..fc + 1] == cuts + [i]
      ensures forall k | fc < k < idx.Length :: idx[k] == old(idx[k])
    {
      idx[fc] := Int32(i);
      assert idx[..fc] == cuts && idx[..fc + 1] == idx[..fc] + [i];
    }

    /** Records where the separators are, as far as field number NUM_FIELDS. */
    method Scan(text: Text) returns (ok: bool, n: nat, fc: nat, ghost ps: seq<Text>)
      requires Shaped() && |text| < 0x8000_0000
      requires forall k | 0 <= k < idx.Length :: idx[k] == 0
      modifies idx
      ensures ok <==> Accepted(text, sep, NUM_FIELDS)
      ensures ok ==> n <= |text| && text[..n] == Trimmed(text, sep, NUM_FIELDS)
      ensures ok ==> 1 <= fc <= NUM_FIELDS && |ps| == fc && ps == Split(text[..n], sep)
      ensures ok ==> Indexed(idx[..fc] + [n], text[..n], ps)
      ensures ok ==> forall k | fc <= k < idx.Length :: idx[k] == 0
      ensures idx[0] == -1
    {
      idx[0] := -1;
      ok, n, fc, ps := false, |text|, 1, [[]];
      var i := 0;
      ghost var cuts := [-1];
      while i < n
        invariant 0 <= i <= n == |text|
        invariant 1 <= fc <= NUM_FIELDS && idx[0] == -1
        invariant |ps| == fc && Scanned(text, i, sep, cuts, ps)
        invariant idx[..fc] == cuts
        invariant forall k | fc <= k < idx.Length :: idx[k] == 0
      {
        ghost var was := cuts;
        if text[i] == sep {
          if fc >= NUM_FIELDS {
            if fc > NUM_FIELDS {
              return;
            }
            if i != |text| - 1 {
              TooManyPieces(text, i, sep, NUM_FIELDS);
              return;
            }
            n := i;
            break;
          }
          Note(fc, i, cuts);
          cuts := cuts + [i];
          fc := fc + 1;
        }
        ScanStep(text, i, sep, was, ps);
        ps := Extend(ps, text[i], sep);
        i := i + 1;
      }
      AcceptedPrefix(text, n, sep, NUM_FIELDS);
      ok := true;
    }

    /** Indexes a text; refuses one with too many separators. */
    method Parse(text: Text) returns (ok: bool)
      requires Fresh() && |text| < 0x8000_0000
      modifies this`data, idx
      ensures ok <==> Accepted(text, sep, NUM_FIELDS)
      ensures ok <==> Separators(text, sep) < NUM_FIELDS
                      || (Separators(text, sep) == NUM_FIELDS && text[|text| - 1] == sep)
      ensures ok ==> Valid() && wcnt == 0
      ensures ok ==> data == Bytes(Trimmed(text, sep, NUM_FIELDS))
      ensures !ok ==> data == Nil && idx[0] == -1
    {
      AcceptedIff(text, sep, NUM_FIELDS);
      var n, fc;
      ghost var ps;
      ok, n, fc, ps := Scan(text);
      if ok {
        ghost var cuts := idx[..fc];
        Note(fc, n, cuts);
        TableIs(text[..n], ps, cuts + [n]);
        data := Bytes(text[..n]);
      }
    }

    /** Back to the state after construction. */
    method Clear()
      requires Shaped()
      modifies this, idx, wmask, wdata
      ensures Valid() && Fresh()
    {
      forall k | 0 <= k < idx.Length { idx[k] := 0; }
      forall f | 0 <= f < wmask.Length { wmask[f] := 0; }
      forall k | 0 <= k < wdata.Length { wdata[k] := Nil; }
      data, wcnt := Nil, 0;
    }

    // -------------------------------------------------------------- serializing

    /** The texts of the first n standard fields. */
    ghost function Texts(n: nat): (r: seq<Text>)
      requires Shaped() && Overlaid() && n <= NUM_FIELDS
      reads this, idx, wmask, wdata
      ensures |r| == n
    {
      if n == 0 then [] else Texts(n - 1) + [TextOf(Field(n - 1))]
    }

    lemma {:induction false} TextAt(n: nat, f: nat)
      requires Shaped() && Overlaid() && f < n <= NUM_FIELDS
      ensures Texts(n)[f] == TextOf(Field(f))
    {
      if f < n - 1 { TextAt(n - 1, f); }
    }

    /** The last field that is written or parsed; the first field if there is none. */
    ghost function LastField(): nat
      requires Shaped()
      reads this, idx, wmask, wdata
    {
      var written := LastWritten(wmask[..], NUM_FIELDS);
      if data.Nil? || written >= |Pieces()| - 1 then written else |Pieces()| - 1
    }

    /** What ToText appends: the parsed text itself, unless some field was written. */
    ghost function Serial(): Text
      requires Valid()
      reads this, idx, wmask, wdata
    {
      if wcnt == 0 then TextOf(data) else
        LastWrittenBelow(wmask[..], NUM_FIELDS);
        Join(Texts(LastField() + 1), sep)
    }

    ghost predicate SeparatorFree()
      requires Shaped() && Overlaid()
      reads this, idx, wmask, wdata
    {
      AllFree(Texts(NUM_FIELDS), sep)
    }

    /** Index of the last parsed field, from the index table alone. */
    method LastParsed() returns (lastr: nat)
      requires Valid() && data.Bytes?
      ensures lastr == |Pieces()| - 1
    {
      lastr := 0;
      ghost var ps := Pieces();
      assert Between(data.b, idx[|ps| - 1], idx[|ps|], ps[|ps| - 1]);
      var i := idx.Length - 1;
      while i > 0
        invariant 0 <= i < idx.Length
        invariant i >= |ps| || (|ps| == 1 && i == 0)
        invariant lastr == 0
      {
        if idx[i] != 0 {
          lastr := i - 1;
          break;
        }
        i := i - 1;
      }
    }

    method LastWrittenField() returns (last: nat)
      requires Shaped()
      ensures last == LastWritten(wmask[..], NUM_FIELDS)
    {
      var i := NUM_FIELDS - 1;
      while i > 0
        invariant 0 <= i < NUM_FIELDS
        invariant LastWritten(wmask[..], NUM_FIELDS) == LastWritten(wmask[..], i + 1)
      {
        if wmask[i] != 0 {
          return i;
        }
        i := i - 1;
      }
      last := 0;
    }

    /** Bytes written, plus separators; the loop counter is an unsigned byte. */
    method WrittenLength() returns (wlen: int)
      requires Shaped() && 0 < wcnt < MAX_WRITES
      ensures wlen >= 0
    {
      wlen := 0;
      var i := 1;
      while i <= wcnt
        invariant 1 <= i <= wcnt + 1 && wlen >= 0
        decreases wcnt + 1 - i
      {
        wlen := wlen + |TextOf(wdata[i])|;
        i := NextByte(i);
      }
      wlen := wlen + wcnt - 1;
    }

    method FindLastField() returns (last: nat)
      requires Valid()
      ensures last == LastField() && last < NUM_FIELDS
    {
      last := LastWrittenField();
      LastWrittenBelow(wmask[..], NUM_FIELDS);
      if data.Bytes? {
        var lastr := LastParsed();
        if last < lastr {
          last := lastr;
        }
      }
    }

    /** A standard field that was written, or is a piece of the parsed text. */
    ghost predicate Present(f: nat)
      requires Shaped()
      reads this, idx, wmask, wdata
    {
      f < NUM_FIELDS && (wmask[f] != 0 || f < |Pieces()|)
    }

    /** The largest standard field that is present, the first one if there is none. */
    ghost predicate IsLast(k: nat)
      requires Shaped()
      reads this, idx, wmask, wdata
    {
      && k < NUM_FIELDS && (k == 0 || Present(k))
      && forall f: nat | k < f < NUM_FIELDS :: !Present(f)
    }

    /** The fields are written as far as needed and no further. */
    lemma LastFieldIff(k: nat)
      requires Valid()
      ensures k == LastField() <==> IsLast(k)
    {
      var last := LastField();
      LastWrittenBelow(wmask[..], NUM_FIELDS);
      assert IsLast(last) by {
        assert forall f: nat | last < f < NUM_FIELDS :: wmask[..][f] == 0;
      }
      if IsLast(k) {
        assert !(k < last) && !(last < k);
      }
    }

    /** The fields as far as the last one that is present follow buf. */
    ghost predicate ByFields(buf: Text, r: Text)
      requires Shaped() && Overlaid()
      reads this, idx, wmask, wdata
    {
      exists k: nat :: IsLast(k) && r == buf + Join(Texts(k + 1), sep)
    }

    lemma FieldsFollow(buf: Text, r: Text)
      requires Valid() && LastField() < NUM_FIELDS && r == buf + Join(Texts(LastField() + 1), sep)
      ensures ByFields(buf, r)
    {
      LastFieldIff(LastField());
    }

    /**
     * Appends the serialization of the record to buf: the parsed text if nothing was written, else the
     * fields as far as the last one that was written or parsed.
     */
    method ToText(buf: Text) returns (r: Text)
      requires Valid() && wcnt < MAX_WRITES
      ensures r == buf + Serial()
      ensures wcnt == 0 ==> r == buf + TextOf(data)
      ensures wcnt != 0 ==> ByFields(buf, r)
    {
      if wcnt == 0 {
        r := buf + TextOf(data);
      } else {
        var wlen := WrittenLength();
        r := FieldByField(buf);
        FieldsFollow(buf, r);
      }
    }

    method FieldByField(buf: Text) returns (r: Text)
      requires Valid()
      ensures LastField() < NUM_FIELDS
      ensures r == buf + Join(Texts(LastField() + 1), sep)
    {
      var last := FindLastField();
      r := AppendFields(buf, last, Texts(last + 1));
    }

    /** Appends fields 0 to last, separated. */
    method AppendFields(buf: Text, last: nat, ghost ps: seq<Text>) returns (r: Text)
      requires Valid() && last < NUM_FIELDS && ps == Texts(last + 1)
      ensures r == buf + Join(ps, sep)
    {
      r := buf;
      var fc := 0;
      while fc < NUM_FIELDS
        invariant fc <= last < NUM_FIELDS
        invariant r == buf + Lead(ps, fc, sep)
      {
        var v := Get(fc);
        TextAt(last + 1, fc);
        assert TextOf(v) == ps[fc];
        r := r + TextOf(v);
        if fc >= last {
          LeadJoin(buf, ps, sep);
          return;
        }
        LeadNext(buf, ps, fc, sep);
        r := r + [sep];
        fc := fc + 1;
      }
    }

    // -------------------------------------------------------------- what serializing preserves

    /** With separator-free fields the serialization has one separator for each field before the last. */
    lemma SerialWidth()
      requires Valid() && wcnt != 0 && SeparatorFree()
      ensures IsLast(|Split(Serial(), sep)| - 1)
      ensures Split(Serial(), sep) == Texts(|Split(Serial(), sep)|)
    {
      var k := LastField();
      LastFieldIff(k);
      TextsPrefix(NUM_FIELDS, k + 1);
      SplitOfJoin(Texts(k + 1), sep);
    }

    lemma NothingPastLast(f: nat)
      requires Valid() && LastField() < f < NUM_FIELDS
      ensures Texts(NUM_FIELDS)[f] == []
    {
      LastWrittenBelow(wmask[..], NUM_FIELDS);
      TextAt(NUM_FIELDS, f);
    }

    /** Field by field or at once: the parsed text comes out unchanged when only custom fields were written. */
    lemma PathsAgree()
      requires Valid() && forall f | 0 <= f < NUM_FIELDS :: wmask[f] == 0
      ensures LastField() < NUM_FIELDS && Join(Texts(LastField() + 1), sep) == TextOf(data)
    {
      ParsedLast();
      match data
      case Nil =>
        assert Texts(1) == [[]];
      case Bytes(t) =>
        ParsedTexts(LastField() + 1);
        PaddedSame(Pieces());
        JoinOfSplit(t, sep);
    }

    lemma ParsedLast()
      requires Valid() && forall f | 0 <= f < NUM_FIELDS :: wmask[f] == 0
      ensures LastField() + 1 == if data.Nil? then 1 else |Pieces()|
    {
      LastWrittenBelow(wmask[..], NUM_FIELDS);
    }

    /** Nothing written: the fields are the pieces. */
    lemma {:induction false} ParsedTexts(n: nat)
      requires Valid() && n <= NUM_FIELDS && forall f | 0 <= f < NUM_FIELDS :: wmask[f] == 0
      ensures Texts(n) == Padded(Pieces(), n)
    {
      if n > 0 { ParsedTexts(n - 1); }
    }

    lemma {:induction false} TextsPrefix(n: nat, k: nat)
      requires Valid() && k <= n <= NUM_FIELDS
      ensures Texts(k) == Texts(n)[..k]
    {
      if k < n { TextsPrefix(n - 1, k); }
    }

    /**
     * Parsing the serialization succeeds and gives every standard field back exactly when no
     * standard field contains the separator.
     */
    lemma SerialReparses()
      requires Valid()
      ensures GivesBack(Serial(), sep, Texts(NUM_FIELDS)) <==> SeparatorFree()
    {
      var fs := Texts(NUM_FIELDS);
      if wcnt == 0 {
        ParsedTexts(NUM_FIELDS);
        ParsedGivesBack(TextOf(data), sep, Pieces());
      } else {
        LastWrittenBelow(wmask[..], NUM_FIELDS);
        var k := LastField() + 1;
        TextsPrefix(NUM_FIELDS, k);
        forall f | k <= f < NUM_FIELDS ensures fs[f] == [] { NothingPastLast(f); }
        JoinGivesBack(fs, k, sep);
      }
    }

    /**
     * A record of its own. It has the same standard fields exactly when none of them contains the
     * separator, and the same custom fields always.
     */
    method Copy() returns (cpy: LogLine)
      requires Valid() && wcnt < MAX_WRITES && |Serial()| < 0x8000_0000
      ensures fresh(cpy) && cpy.sep == sep && cpy.Shaped() && cpy.Overlaid()
      ensures cpy.Valid() && cpy.Texts(NUM_FIELDS) == old(Texts(NUM_FIELDS)) <==> old(SeparatorFree())
      ensures SameCustom(cpy)
    {
      ghost var ts := Texts(NUM_FIELDS);
      cpy := new LogLine(sep);
      if wcnt != 0 {
        CopyWritten(cpy, ts);
      } else {
        CopyParsed(cpy, ts);
      }
    }

    /** The two records share no memory. */
    ghost predicate Apart(cpy: LogLine) {
      var here: set<object> := {this, idx, wmask, wdata};
      var there: set<object> := {cpy, cpy.idx, cpy.wmask, cpy.wdata};
      here !! there
    }

    method CopyWritten(cpy: LogLine, ghost ts: seq<Text>)
      requires Valid() && 0 < wcnt < MAX_WRITES && |Serial()| < 0x8000_0000 && ts == Texts(NUM_FIELDS)
      requires cpy.Fresh() && cpy.sep == sep && Apart(cpy)
      modifies cpy, cpy.idx, cpy.wmask, cpy.wdata
      ensures cpy.Shaped() && cpy.Overlaid()
      ensures cpy.Valid() && cpy.Texts(NUM_FIELDS) == ts <==> AllFree(ts, sep)
      ensures SameCustom(cpy)
    {
      CopySerial(cpy, ts);
      ghost var parsed := cpy.Texts(NUM_FIELDS);
      CopyCustom(cpy);
      assert cpy.Texts(NUM_FIELDS) == parsed;
    }

    ghost predicate SameCustom(other: LogLine)
      requires Shaped() && Overlaid() && other.Shaped() && other.Overlaid()
      reads this, idx, wmask, wdata, other, other.idx, other.wmask, other.wdata
    {
      forall f | NUM_FIELDS <= f < NUM_FIELDS + NUM_CUSTOM :: other.Field(f) == Field(f)
    }

    /** Parses into a new record, without looking at the error. */
    static method Reparse(cpy: LogLine, text: Text)
      requires cpy.Fresh() && |text| < 0x8000_0000
      modifies cpy`data, cpy.idx
      ensures cpy.Shaped() && cpy.Overlaid() && cpy.wcnt == 0
      ensures cpy.Valid() <==> Accepted(text, cpy.sep, NUM_FIELDS)
      ensures cpy.Valid() ==> GivesBack(text, cpy.sep, cpy.Texts(NUM_FIELDS))
    {
      var ok := cpy.Parse(text);
      if ok {
        cpy.ParsedTexts(NUM_FIELDS);
      }
    }

    /** Serializes and parses again; an error of the second parse is ignored. */
    method CopySerial(cpy: LogLine, ghost ts: seq<Text>)
      requires Valid() && 0 < wcnt < MAX_WRITES && |Serial()| < 0x8000_0000 && ts == Texts(NUM_FIELDS)
      requires cpy.Fresh() && cpy.sep == sep && Apart(cpy)
      modifies cpy`data, cpy.idx
      ensures cpy.Shaped() && cpy.Overlaid()
      ensures cpy.Valid() && cpy.Texts(NUM_FIELDS) == ts <==> AllFree(ts, sep)
    {
      SerialReparses();
      var text := ToText([]);
      assert text == Serial();
      Reparse(cpy, text);
    }

    method CopyParsed(cpy: LogLine, ghost ts: seq<Text>)
      requires Valid() && wcnt == 0 && ts == Texts(NUM_FIELDS)
      requires cpy.Fresh() && cpy.sep == sep && Apart(cpy)
      modifies cpy`data, cpy.idx
      ensures cpy.Valid() && SameCustom(cpy) && cpy.Texts(NUM_FIELDS) == ts && AllFree(ts, sep)
    {
      ParsedTexts(NUM_FIELDS);
      ParsedGivesBack(TextOf(data), sep, Pieces());
      CopyData(cpy);
      cpy.ParsedTexts(NUM_FIELDS);
    }

    method CopyData(cpy: LogLine)
      requires Valid() && wcnt == 0 && cpy.Fresh() && cpy.sep == sep && Apart(cpy)
      modifies cpy`data, cpy.idx
      ensures cpy.Valid() && cpy.Pieces() == Pieces() && forall f | 0 <= f < NUM_FIELDS :: cpy.wmask[f] == 0
      ensures forall f | 0 <= f < NUM_FIELDS + NUM_CUSTOM :: cpy.Field(f) == Field(f)
    {
      if data.Bytes? {
        cpy.data := data;
        forall k | 0 <= k < idx.Length { cpy.idx[k] := idx[k]; }
      }
    }

    /** Copies the custom fields that are not nil. */
    method CopyCustom(cpy: LogLine)
      requires Valid() && cpy.Shaped() && cpy.Overlaid() && cpy.wcnt == 0
      requires Apart(cpy)
      requires forall f | 0 <= f < NUM_FIELDS + NUM_CUSTOM :: cpy.wmask[f] == 0
      modifies cpy`wcnt, cpy.wmask, cpy.wdata
      ensures cpy.Shaped() && cpy.Overlaid()
      ensures cpy.Valid() <==> old(cpy.Valid())
      ensures cpy.Texts(NUM_FIELDS) == old(cpy.Texts(NUM_FIELDS))
      ensures SameCustom(cpy)
    {
      for i := NUM_FIELDS to NUM_FIELDS + NUM_CUSTOM
        invariant cpy.Shaped() && cpy.Overlaid() && cpy.wcnt <= i - NUM_FIELDS
        invariant cpy.Valid() <==> old(cpy.Valid())
        invariant forall f | 0 <= f < NUM_FIELDS || i <= f < NUM_FIELDS + NUM_CUSTOM :: cpy.wmask[f] == 0
        invariant forall f | 0 <= f < NUM_FIELDS :: cpy.Field(f) == old(cpy.Field(f))
        invariant Valid() && forall f | NUM_FIELDS <= f < i :: cpy.Field(f) == Field(f)
      {
        CopyField(cpy, i);
      }
      cpy.TextsKept(NUM_FIELDS);
    }

    twostate lemma {:induction false} TextsKept(n: nat)
      requires old(Shaped() && Overlaid()) && Shaped() && Overlaid() && n <= NUM_FIELDS
      requires forall f | 0 <= f < n :: Field(f) == old(Field(f))
      ensures Texts(n) == old(Texts(n))
    {
      if n > 0 { TextsKept(n - 1); }
    }

    method CopyField(cpy: LogLine, f: nat)
      requires Valid() && cpy.Shaped() && cpy.Overlaid() && cpy.wcnt < MAX_WRITES
      requires Apart(cpy) && NUM_FIELDS <= f < NUM_FIELDS + NUM_CUSTOM && cpy.wmask[f] == 0
      modifies cpy`wcnt, cpy.wmask, cpy.wdata
      ensures cpy.Shaped() && cpy.Overlaid() && cpy.wcnt <= old(cpy.wcnt) + 1
      ensures cpy.Valid() <==> old(cpy.Valid())
      ensures cpy.Field(f) == Field(f)
      ensures forall g | 0 <= g < NUM_FIELDS + NUM_CUSTOM && g != f :: cpy.Field(g) == old(cpy.Field(g))
      ensures forall g | 0 <= g < NUM_FIELDS + NUM_CUSTOM && g != f :: cpy.wmask[g] == old(cpy.wmask[g])
    {
      var fbuf := Get(f);
      if fbuf.Bytes? {
        var ok := cpy.Set(f, fbuf);
      }
    }
  }

  /** The pieces, with empty ones added or the surplus dropped, n in all. */
  ghost function Padded(ps: seq<Text>, n: nat): (r: seq<Text>)
    ensures |r| == n && forall f | 0 <= f < n :: r[f] == Piece(ps, f)
  {
    if n == 0 then [] else Padded(ps, n - 1) + [Piece(ps, n - 1)]
  }

  lemma PaddedSame(ps: seq<Text>)
    ensures Padded(ps, |ps|) == ps
  {
  }

  /** Parsing the text would succeed and give these fields. */
  ghost predicate GivesBack(t: Text, sep: byte, fs: seq<Text>) {
    Accepted(t, sep, NUM_FIELDS) && Padded(Split(Trimmed(t, sep, NUM_FIELDS), sep), NUM_FIELDS) == fs
  }

  lemma ParsedGivesBack(t: Text, sep: byte, ps: seq<Text>)
    requires |ps| <= NUM_FIELDS && (ps == Split(t, sep) || (ps == [] && t == []))
    ensures GivesBack(t, sep, Padded(ps, NUM_FIELDS)) && AllFree(Padded(ps, NUM_FIELDS), sep)
  {
    JoinOfSplit(t, sep);
    PaddedAlike(Split(t, sep), ps, NUM_FIELDS);
    PaddedFree(ps, NUM_FIELDS, sep);
  }

  lemma PaddedAlike(ps: seq<Text>, qs: seq<Text>, n: nat)
    requires ps == qs || (ps == [[]] && qs == [])
    ensures Padded(ps, n) == Padded(qs, n)
  {
    assert forall f: nat | f < n :: Padded(ps, n)[f] == Piece(ps, f) == Piece(qs, f) == Padded(qs, n)[f];
  }

  lemma PaddedFree(ps: seq<Text>, n: nat, sep: byte)
    requires AllFree(ps, sep)
    ensures AllFree(Padded(ps, n), sep)
  {
    forall f | 0 <= f < n ensures Free(Padded(ps, n)[f], sep) {
      assert Padded(ps, n)[f] == Piece(ps, f);
    }
  }

  /** The first k fields, joined, parse to all the fields when the others are empty. */
  lemma JoinGivesBack(fs: seq<Text>, k: nat, sep: byte)
    requires 0 < k <= |fs| == NUM_FIELDS && forall f | k <= f < NUM_FIELDS :: fs[f] == []
    ensures GivesBack(Join(fs[..k], sep), sep, fs) <==> AllFree(fs, sep)
  {
    var ps, t := fs[..k], Join(fs[..k], sep);
    ReparseIff(ps, sep, NUM_FIELDS);
    assert forall f: nat | f < NUM_FIELDS :: Piece(ps, f) == fs[f];
    assert AllFree(ps, sep) <==> AllFree(fs, sep) by {
      if AllFree(ps, sep) {
        forall f | 0 <= f < NUM_FIELDS ensures Free(fs[f], sep) { assert f < k ==> fs[f] == ps[f]; }
      }
    }
    if Accepted(t, sep, NUM_FIELDS) {
      PaddedIs(Split(Trimmed(t, sep, NUM_FIELDS), sep), fs);
    }
  }

  lemma PaddedIs(qs: seq<Text>, fs: seq<Text>)
    ensures Padded(qs, |fs|) == fs <==> forall f: nat | f < |fs| :: Piece(qs, f) == fs[f]
  {
    if Padded(qs, |fs|) == fs {
      forall f: nat | f < |fs| ensures Piece(qs, f) == fs[f] { assert Padded(qs, |fs|)[f] == Piece(qs, f); }
    }
  }

  /** The highest of 1 .. n - 1 whose mask is set, else 0. */
  ghost function LastWritten(mask: seq<nat>, n: nat): nat
    requires n <= |mask|
  {
    if n <= 1 then 0 else if mask[n - 1] != 0 then n - 1 else LastWritten(mask, n - 1)
  }

  lemma {:induction false} LastWrittenBelow(mask: seq<nat>, n: nat)
    requires 0 < n <= |mask|
    ensures LastWritten(mask, n) < n
    ensures forall i | LastWritten(mask, n) < i < n :: mask[i] == 0
    ensures LastWritten(mask, n) == 0 || mask[LastWritten(mask, n)] != 0
  {
    if n > 1 { LastWrittenBelow(mask, n - 1); }
  }

  /** The first k pieces, a separator after each. */
  ghost function Lead(ps: seq<Text>, k: nat, sep: byte): Text
    requires k <= |ps|
  {
    if k == 0 then [] else Lead(ps, k - 1, sep) + ps[k - 1] + [sep]
  }

  lemma {:induction false} LeadIsJoin(ps: seq<Text>, k: nat, sep: byte)
    requires k < |ps|
    ensures Lead(ps, k, sep) + ps[k] == Join(ps[..k + 1], sep)
  {
    assert ps[..k + 1] == ps[..k] + [ps[k]];
    if k > 0 {
      LeadIsJoin(ps, k - 1, sep);
      JoinSnoc(ps[..k], ps[k], sep);
    }
  }

  lemma LeadNext(buf: Text, ps: seq<Text>, k: nat, sep: byte)
    requires k < |ps|
    ensures buf + Lead(ps, k, sep) + ps[k] + [sep] == buf + Lead(ps, k + 1, sep)
  {
    assert buf + Lead(ps, k, sep) + ps[k] + [sep] == buf + (Lead(ps, k, sep) + ps[k] + [sep]);
  }

  lemma LeadJoin(buf: Text, ps: seq<Text>, sep: byte)
    requires ps != []
    ensures buf + Lead(ps, |ps| - 1, sep) + ps[|ps| - 1] == buf + Join(ps, sep)
  {
    LeadIsJoin(ps, |ps| - 1, sep);
    assert ps[..|ps|] == ps;
    assert buf + Lead(ps, |ps| - 1, sep) + ps[|ps| - 1] == buf + (Lead(ps, |ps| - 1, sep) + ps[|ps| - 1]);
  }

  /** 255 fields can be written, one more than documented; ToText then never returns. */
  method WriteTooMany(value: Slice) returns (l: LogLine)
    ensures fresh(l) && l.Valid() && l.wcnt == MAX_WRITES
  {
    l := new LogLine(44);
    for f := 0 to MAX_WRITES
      invariant fresh(l) && fresh(l.wmask) && fresh(l.wdata)
      invariant l.Valid() && l.wcnt == f
      invariant forall g | f <= g < NUM_FIELDS :: l.wmask[g] == 0
    {
      var ok := l.Set(f, value);
    }
  }

  // ---------------------------------------------------------------- newlines in the text

  /** The text up to its first newline. */
  function FirstLine(t: Text): Text {
    var nl := LineText.IndexByte(t);
    if nl == -1 then t else t[..nl]
  }

  /** The standard fields that Get returns after parsing t. */
  ghost function FieldsOf(t: Text, sep: byte): seq<Text>
    requires Accepted(t, sep, NUM_FIELDS)
  {
    Padded(Split(Trimmed(t, sep, NUM_FIELDS), sep), NUM_FIELDS)
  }

  lemma NewlineInFields(t: Text, sep: byte)
    requires sep != LF && Accepted(t, sep, NUM_FIELDS)
    ensures LF in t <==> exists f :: 0 <= f < NUM_FIELDS && LF in FieldsOf(t, sep)[f]
  {
    var trimmed := Trimmed(t, sep, NUM_FIELDS);
    var ps := Split(trimmed, sep);
    JoinOfSplit(trimmed, sep);
    InJoin(ps, sep, LF);
    TrimmedPieces(t, sep, NUM_FIELDS);
    assert LF in t <==> LF in trimmed;
    if LF in t {
      var i :| 0 <= i < |ps| && LF in ps[i];
      assert FieldsOf(t, sep)[i] == Piece(ps, i);
    }
    if f :| 0 <= f < NUM_FIELDS && LF in FieldsOf(t, sep)[f] {
      assert FieldsOf(t, sep)[f] == Piece(ps, f) == ps[f];
    }
  }

  /** Parsing takes the fields of the first line, and no more, exactly when there is no other. */
  lemma ParsesFirstLineIff(t: Text, sep: byte)
    requires sep != LF && Accepted(t, sep, NUM_FIELDS)
    ensures (Accepted(FirstLine(t), sep, NUM_FIELDS) && FieldsOf(t, sep) == FieldsOf(FirstLine(t), sep)) <==> LF !in t
  {
    LineText.IndexByteIs(t);
    NewlineInFields(t, sep);
    if Accepted(FirstLine(t), sep, NUM_FIELDS) {
      NewlineInFields(FirstLine(t), sep);
    }
  }

  /** Of two lines separated by a newline, parsing makes one field. */
  lemma TwoLinesOneField()
    ensures Accepted([97, LF, 98], 44, NUM_FIELDS) && FieldsOf([97, LF, 98], 44)[0] == [97, LF, 98]
    ensures FirstLine([97, LF, 98]) == [97]
  {
    SplitOfJoin([[97, LF, 98]], 44);
    LineText.IndexOfFirst([97], [98]);
    assert [97] + [LF] + [98] == [97, LF, 98];
  }

  // ---------------------------------------------------------------- an 8-bit loop counter

  /** Adding one to an unsigned byte. */
  function NextByte(i: nat): nat { (i + 1) % 256 }

  /** The counter of the loop `for i := uint8(1); i <= n; i++` at the start of round k. */
  function RoundByte(k: nat): nat {
    if k == 0 then 1 else NextByte(RoundByte(k - 1))
  }

  lemma ByteStep(q: nat, r: nat)
    requires r < 256
    ensures (256 * q + r + 1) % 256 == (r + 1) % 256
  {
    if r == 255 {
      assert 256 * q + r + 1 == 256 * (q + 1);
    }
  }

  lemma {:induction false} RoundByteIs(k: nat)
    ensures RoundByte(k) == (k + 1) % 256
  {
    if k > 0 {
      RoundByteIs(k - 1);
      ByteStep(k / 256, k % 256);
    }
  }

  /** With an upper bound of 255 the loop never ends, and with any smaller one it does. */
  lemma ByteLoopDiverges(n: nat)
    ensures (forall k: nat :: RoundByte(k) <= n) <==> n >= MAX_WRITES
  {
    RoundByteIs(n);
    forall k: nat ensures RoundByte(k) <= 255 { RoundByteIs(k); }
  }
}
