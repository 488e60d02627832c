/** pinsight_thread_data_t: the per-thread region table with its search cursor, and the record
    stack kept both as an array and as a chain of parent links (src/pinsight.c, src/pinsight.h).
    Pointers into the two arrays are indices, NULL is -1. */
module ThreadData {
  import opened LexgionStack
  import opened Numbering
  import opened RateControl

  /** A region's entry; its config is an index into the table of trace configs, or -1. */
  datatype Lexgion = Lexgion(key: Key, region: Region, config: int)

  /** A record: the entry it belongs to, the record id, and the enclosing record. */
  datatype Record = Record(lexgion: nat, recordId: nat, parent: int)

  /** A trace config and its count policy: TRIGGER_ALL or any other. */
  datatype TraceConfig = TraceConfig(limits: Config, triggerAll: bool)

  const NULL: int := -1

  ghost function KeysOf(ls: seq<Lexgion>): seq<Key> {
    seq(|ls|, i requires 0 <= i < |ls| => ls[i].key)
  }

  ghost function FramesOf(ls: seq<Lexgion>, rs: seq<Record>): seq<Frame>
    requires forall i :: 0 <= i < |rs| ==> rs[i].lexgion < |ls|
  {
    seq(|rs|, i requires 0 <= i < |rs| => Frame(ls[rs[i].lexgion].key, rs[i].recordId))
  }

  class Thread {
    const lim: Limits
    const lexgions: array<Lexgion>
    const stack: array<Record>
    const configs: array<TraceConfig>  // shared by all threads
    var numLexgions: nat
    var recentLexgion: int
    var stackTop: int
    var currentRecord: int
    ghost var begins: seq<Key>

    ghost predicate Linked()
      reads this, lexgions, stack
    {
      && lexgions.Length == lim.maxLexgions && stack.Length == lim.maxDepth
      && numLexgions <= lim.maxLexgions && -1 <= stackTop < lim.maxDepth
      && (if numLexgions == 0 then recentLexgion == NULL else 0 <= recentLexgion < numLexgions)
      && currentRecord == stackTop
      && (forall i :: 0 <= i <= stackTop ==> stack[i].parent == i - 1)
      && (forall i :: 0 <= i <= stackTop ==> stack[i].lexgion < numLexgions)
    }

    ghost function Abs(): State
      requires Linked()
      reads this, lexgions, stack
    {
      State(KeysOf(lexgions[..numLexgions]), begins, FramesOf(lexgions[..numLexgions], stack[..stackTop + 1]))
    }

    ghost predicate Valid()
      reads this, lexgions, stack
    {
      && Linked() && Wellformed(Abs(), lim)
      && forall i :: 0 <= i < numLexgions ==> lexgions[i].region.counter == Count(begins, lexgions[i].key) % UINT_RANGE
    }

    constructor (lim: Limits, configs: array<TraceConfig>)
      ensures Valid() && Abs() == State([], [], []) && this.lim == lim && this.configs == configs
      ensures fresh(lexgions) && fresh(stack)
    {
      this.lim, this.configs := lim, configs;
      lexgions := new Lexgion[lim.maxLexgions](_ => Lexgion(Key(0, 0, 0), Fresh(0), NULL));
      stack := new Record[lim.maxDepth](_ => Record(0, 0, NULL));
      numLexgions, recentLexgion, stackTop, currentRecord := 0, NULL, -1, NULL;
      begins := [];
    }

    /** find_lexgion: from the most recent entry to the end, then from the start. */
    method FindLexgion(k: Key) returns (index: int)
      requires Valid()
      ensures if k in Abs().dir then 0 <= index < numLexgions && lexgions[index].key == k else index == NULL
    {
      if recentLexgion < 0 || numLexgions <= 0 {
        return NULL;
      }
      for i := recentLexgion to numLexgions
        invariant forall j :: recentLexgion <= j < i ==> lexgions[j].key != k
      {
        if lexgions[i].key == k {
          assert Abs().dir[i] == k;
          return i;
        }
      }
      for i := 0 to recentLexgion
        invariant forall j :: 0 <= j < i ==> lexgions[j].key != k
      {
        if lexgions[i].key == k {
          assert Abs().dir[i] == k;
          return i;
        }
      }
      return NULL;
    }

    /** push_lexgion */
    method PushLexgion(lexgion: nat, recordId: nat) returns (record: int)
      requires Valid() && lexgion < numLexgions
      modifies this`stackTop, this`currentRecord, stack
      ensures Valid()
      ensures Abs() == if |old(Abs().frames)| == lim.maxDepth then old(Abs())
                       else old(Abs()).(frames := old(Abs().frames) + [Frame(lexgions[lexgion].key, recordId)])
      ensures record == if |old(Abs().frames)| == lim.maxDepth then NULL else |old(Abs().frames)|
    {
      var top := stackTop + 1;
      if top == lim.maxDepth {
        return NULL;
      }
      ghost var before := Abs();
      stack[top] := Record(lexgion, recordId, currentRecord);
      currentRecord := top;
      stackTop := top;
      assert lexgions[lexgion].key == before.dir[lexgion];
      assert Abs().frames == before.frames + [Frame(lexgions[lexgion].key, recordId)];
      return top;
    }

    /** pop_lexgion: the entry and the record id of the top record, or NULL. */
    method PopLexgion() returns (lexgion: int, recordId: nat)
      requires Valid()
      modifies this`stackTop, this`currentRecord
      ensures Valid()
      ensures if old(Abs().frames) == [] then lexgion == NULL && Abs() == old(Abs())
              else && 0 <= lexgion < numLexgions
                   && old(Abs().frames)[|old(Abs().frames)| - 1] == Frame(lexgions[lexgion].key, recordId)
                   && Abs() == old(Abs()).(frames := old(Abs().frames)[..|old(Abs().frames)| - 1])
    {
      if currentRecord == NULL {
        return NULL, 0;
      }
      var record := stack[currentRecord];
      lexgion, recordId := record.lexgion, record.recordId;
      ghost var frames := Abs().frames;
      assert frames[stackTop] == Frame(lexgions[lexgion].key, recordId);
      currentRecord := record.parent;
      stackTop := stackTop - 1;
      assert Abs().frames == frames[..|frames| - 1];
    }

    /** lexgion_begin. Each entry's counter stays the number of begins resolved to it. */
    method LexgionBegin(k: Key) returns (record: int)
      requires Valid()
      modifies this, lexgions, stack
      ensures Valid() && Abs() == Begin(old(Abs()), k, lim)
      ensures record == if Skipped(old(Abs()), k, lim) || |old(Abs().frames)| == lim.maxDepth then NULL
                        else |old(Abs().frames)|
      ensures forall i :: 0 <= i < old(numLexgions) ==>
                lexgions[i] == old(lexgions[i]).(region := if old(lexgions[i]).key == k
                                                           then Enter(old(lexgions[i]).region) else old(lexgions[i]).region)
      ensures numLexgions == old(numLexgions) || numLexgions == old(numLexgions) + 1
      ensures numLexgions > old(numLexgions) ==>
                lexgions[old(numLexgions)] == Lexgion(k, Enter(Fresh(old(lexgions[numLexgions].region.seenGeneration))), NULL)
      ensures recentLexgion >= 0 && !Skipped(old(Abs()), k, lim) ==> lexgions[recentLexgion].key == k
    {
      hide KeysOf, FramesOf, Wellformed, Count, Enter;
      var index := ResolveEntry(k);
      if index == NULL {
        return NULL;
      }
      recentLexgion := index;
      CountBegin(index);
      record := PushLexgion(index, lexgions[index].region.counter);
    }

    /** The entry of a region, found or added; NULL if it is new and the table is full. */
    method ResolveEntry(k: Key) returns (index: int)
      requires Valid()
      modifies this`numLexgions, this`recentLexgion, lexgions
      ensures Valid() && (index == NULL <==> Skipped(old(Abs()), k, lim))
      ensures Abs() == if index == NULL || k in old(Abs()).dir then old(Abs()) else old(Abs()).(dir := old(Abs()).dir + [k])
      ensures index != NULL ==> 0 <= index < numLexgions && lexgions[index].key == k
      ensures forall i :: 0 <= i < numLexgions && i != index ==> lexgions[i].key != k
      ensures forall i :: 0 <= i < old(numLexgions) ==> lexgions[i] == old(lexgions[i])
      ensures numLexgions == old(numLexgions) || numLexgions == old(numLexgions) + 1
      ensures numLexgions > old(numLexgions) ==>
                lexgions[old(numLexgions)] == Lexgion(k, Fresh(old(lexgions[numLexgions].region.seenGeneration)), NULL)
                && index == old(numLexgions)
    {
      hide KeysOf, FramesOf, Wellformed, Count;
      DirIs();
      index := FindLexgion(k);
      assert index == NULL ==> forall i :: 0 <= i < numLexgions ==> Abs().dir[i] != k;
      if index == NULL {
        if numLexgions == lim.maxLexgions {
          return NULL;
        }
        index := numLexgions;
        AddEntry(k);
      }
      DirIs();
    }

    /** A new entry behind the others, its counters at zero. */
    method AddEntry(k: Key)
      requires Valid() && k !in Abs().dir && numLexgions < lim.maxLexgions
      modifies this`numLexgions, this`recentLexgion, lexgions
      ensures Valid() && Abs() == old(Abs()).(dir := old(Abs().dir) + [k])
      ensures numLexgions == old(numLexgions) + 1
      ensures forall i :: 0 <= i < old(numLexgions) ==> lexgions[i] == old(lexgions[i])
      ensures lexgions[numLexgions - 1] == Lexgion(k, Fresh(old(lexgions[numLexgions].region.seenGeneration)), NULL)
    {
      ghost var before := Abs();
      var slot := lexgions[numLexgions].region;
      lexgions[numLexgions] := Lexgion(k, Fresh(slot.seenGeneration), NULL);
      recentLexgion := numLexgions;
      numLexgions := numLexgions + 1;
      assert Abs().dir == before.dir + [k];
      assert Abs().frames == before.frames;
      assert k !in begins;
    }

    method CountBegin(index: nat)
      requires Valid() && index < numLexgions
      modifies this`begins, lexgions
      ensures Valid()
      ensures Abs() == old(Abs()).(begins := old(begins) + [lexgions[index].key])
      ensures forall i :: 0 <= i < numLexgions && i != index ==> lexgions[i] == old(lexgions[i])
      ensures lexgions[index] == old(lexgions[index]).(region := Enter(old(lexgions[index]).region))
    {
      ghost var before := Abs();
      var l := lexgions[index];
      lexgions[index] := l.(region := Enter(l.region));
      begins := begins + [l.key];
      assert before.dir[index] == l.key;
      assert Abs().dir == before.dir;
      assert Abs().frames == before.frames;
      forall i | 0 <= i < numLexgions
        ensures lexgions[i].region.counter == Count(begins, lexgions[i].key) % UINT_RANGE
      {
        assert i != index ==> before.dir[i] != before.dir[index];
      }
    }

    /** lexgion_end_match: the entry and record id of the matching record, or NULL. */
    method LexgionEndMatch(codeptr: nat) returns (lexgion: int, recordId: nat)
      requires Valid()
      modifies this`stackTop, this`currentRecord
      ensures Valid() && Abs() == EndMatch(old(Abs()), codeptr)
      ensures var n := TopMatch(old(Abs().frames), codeptr);
              if n == |old(Abs().frames)| then lexgion == NULL
              else 0 <= lexgion < numLexgions && old(Abs().frames)[n] == Frame(lexgions[lexgion].key, recordId)
    {
      hide KeysOf, FramesOf, Wellformed, Count, TopMatch;
      ghost var frames := Abs().frames;
      var record := TopRecord(codeptr);
      lexgion, recordId := NULL, 0;
      if record == NULL {
        assert frames[..|frames|] == frames;
        return;
      }
      var stop := stack[record].parent;
      HeightIs();
      while currentRecord != stop
        invariant Valid() && record - 1 <= stackTop < |frames|
        invariant Abs() == old(Abs()).(frames := frames[..stackTop + 1])
        invariant stackTop < |frames| - 1 ==>
                    0 <= lexgion < numLexgions && frames[stackTop + 1] == Frame(lexgions[lexgion].key, recordId)
        decreases stackTop
      {
        HeightIs();
        assert frames[..stackTop + 1][..stackTop] == frames[..stackTop];
        lexgion, recordId := PopLexgion();
        HeightIs();
      }
    }

    lemma DirIs()
      requires Valid()
      ensures |Abs().dir| == numLexgions
      ensures forall i :: 0 <= i < numLexgions ==> Abs().dir[i] == lexgions[i].key
      ensures forall i, j :: 0 <= i < j < numLexgions ==> lexgions[i].key != lexgions[j].key
    {
      assert forall i :: 0 <= i < numLexgions ==> Abs().dir[i] == lexgions[i].key;
    }

    lemma HeightIs()
      requires Linked()
      ensures |Abs().frames| == stackTop + 1
      ensures forall i :: 0 <= i <= stackTop ==> Abs().frames[i] == Frame(lexgions[stack[i].lexgion].key, stack[i].recordId)
    {
    }

    /** The topmost record of this codeptr, found along the parent links. */
    method TopRecord(codeptr: nat) returns (record: int)
      requires Valid()
      ensures -1 <= record <= stackTop
      ensures var n := TopMatch(Abs().frames, codeptr);
              record == if n == |Abs().frames| then NULL else n
    {
      hide KeysOf, FramesOf, Wellformed, Count;
      HeightIs();
      ghost var frames := Abs().frames;
      record := currentRecord;
      while record != NULL && lexgions[stack[record].lexgion].key.codeptr != codeptr
        invariant -1 <= record <= stackTop
        invariant forall i :: record < i < |frames| ==> frames[i].key.codeptr != codeptr
        decreases record
      {
        record := stack[record].parent;
      }
    }

    // ---------- The rate filter on an entry ----------

    /** The entry's limits, if it has been given a config. */
    ghost predicate Configured(i: nat)
      reads this, lexgions, configs
    {
      i < numLexgions <= lexgions.Length && 0 <= lexgions[i].config < configs.Length
    }

    /** lexgion_set_rate_trace_bit */
    method SetRateTraceBit(index: nat) returns (traced: bool)
      requires Valid() && Configured(index)
      modifies lexgions
      ensures Valid() && Abs() == old(Abs())
      ensures lexgions[index] == old(lexgions[index]).(region :=
                SetTraceBit(old(lexgions[index]).region, configs[old(lexgions[index]).config].limits))
      ensures forall i :: 0 <= i < numLexgions && i != index ==> lexgions[i] == old(lexgions[i])
      ensures traced == lexgions[index].region.traceBit
    {
      var l := lexgions[index];
      var c := configs[l.config].limits;
      if c.maxTraces != UNLIMITED && l.region.seenGeneration != c.generation {
        SetRegion(index, l.region.(traceCounter := 0, seenGeneration := c.generation));
      }
      var r := lexgions[index].region;
      traced :=
        && c.startsAt <= Dec(r.counter)
        && (c.maxTraces == UNLIMITED || r.traceCounter < c.maxTraces)
        && r.sinceTrace >= c.rate;
      SetRegion(index, r.(traceBit := traced));
    }

    /** Change an entry's trace counters; the execution counter and the key stay. */
    method SetRegion(index: nat, r: Region)
      requires Valid() && index < numLexgions && r.counter == lexgions[index].region.counter
      modifies lexgions
      ensures Valid() && Abs() == old(Abs())
      ensures lexgions[index] == old(lexgions[index]).(region := r)
      ensures forall i :: 0 <= i < numLexgions && i != index ==> lexgions[i] == old(lexgions[i])
    {
      ghost var before := Abs();
      lexgions[index] := lexgions[index].(region := r);
      assert Abs().dir == before.dir;
      assert Abs().frames == before.frames;
    }

    /** An entry with a finite cap; only such entries hold back a window with the `all` policy. */
    ghost predicate FiniteCap(i: nat)
      requires i < numLexgions <= lexgions.Length && lexgions[i].config < configs.Length
      reads this, lexgions, configs
    {
      lexgions[i].config >= 0 && configs[lexgions[i].config].limits.maxTraces != UNLIMITED
    }

    ghost predicate Capped(i: nat)
      requires Configured(i)
      reads this, lexgions, configs
    {
      AtCap(lexgions[i].region, configs[lexgions[i].config].limits)
    }

    ghost predicate ConfigsKnown()
      requires numLexgions <= lexgions.Length
      reads this, lexgions, configs
    {
      forall i :: 0 <= i < numLexgions ==> lexgions[i].config < configs.Length
    }

    /** pinsight_all_seen_lexgions_capped */
    method AllSeenCapped() returns (all: bool)
      requires Valid() && ConfigsKnown()
      ensures all <==>
              && (exists i :: 0 <= i < numLexgions && FiniteCap(i))
              && (forall i :: 0 <= i < numLexgions && FiniteCap(i) ==> Capped(i))
    {
      var seenFinite := 0;
      for i := 0 to numLexgions
        invariant seenFinite > 0 <==> exists j :: 0 <= j < i && FiniteCap(j)
        invariant seenFinite >= 0
        invariant forall j :: 0 <= j < i && FiniteCap(j) ==> Capped(j)
      {
        if lexgions[i].config >= 0 && configs[lexgions[i].config].limits.maxTraces != UNLIMITED {
          assert FiniteCap(i);
          seenFinite := seenFinite + 1;
          if lexgions[i].region.traceCounter < configs[lexgions[i].config].limits.maxTraces {
            assert !Capped(i);
            return false;
          }
        }
      }
      return seenFinite > 0;
    }

    /** lexgion_post_trace_update: account for a trace, and say whether it ends the window. */
    method PostTraceUpdate(index: nat) returns (fire: bool)
      requires Valid() && ConfigsKnown() && index < numLexgions
      modifies lexgions
      ensures Valid() && Abs() == old(Abs()) && ConfigsKnown()
      ensures lexgions[index] == old(lexgions[index]).(region := PostTrace(old(lexgions[index]).region))
      ensures forall i :: 0 <= i < numLexgions && i != index ==> lexgions[i] == old(lexgions[i])
      ensures fire <==>
              && FiniteCap(index) && Capped(index)
              && (!configs[lexgions[index].config].triggerAll ||
                  forall i :: 0 <= i < numLexgions && FiniteCap(i) ==> Capped(i))
    {
      SetRegion(index, PostTrace(lexgions[index].region));
      fire := false;
      var l := lexgions[index];
      if l.config >= 0 && configs[l.config].limits.maxTraces != UNLIMITED {
        if l.region.traceCounter >= configs[l.config].limits.maxTraces {
          if !configs[l.config].triggerAll {
            fire := true;
          } else {
            fire := AllSeenCapped();
          }
        }
      }
    }
  }
}
