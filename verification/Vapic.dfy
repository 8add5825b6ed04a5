/**
 * The lock-free update of a virtual task-priority register.  One word holds the priority, the
 * highest interrupt in service and the highest pending one; the guest replaces the first byte by
 * compare-and-swap while the hypervisor changes the others (Intel SDM volume 3A, section 10.8.3).
 */
module Vapic {
  import opened Bytes

  /** The record word, lowest byte first. */
  datatype Word = Word(tpr: byte, isr: byte, zero: byte, irr: byte)

  /** What the hypervisor does to a record; the class of an interrupt in service sits in the upper half of its byte. */
  datatype Change = InService(vectorClass: nat) | Pending(vector: byte) | Enable(on: bool)

  function ApplyOne(w: Word, c: Change): Word {
    match c
    case InService(k) => w.(isr := k % 16 * 16)
    case Pending(v) => w.(irr := v)
    case Enable(_) => w
  }

  function Apply(w: Word, changes: seq<Change>): Word {
    if changes == [] then w else ApplyOne(Apply(w, changes[..|changes| - 1]), changes[|changes| - 1])
  }

  /**
   * The architectural processor priority: the class is the larger one, the low half survives only from the
   * task priority.
   */
  function ProcessorPriority(tpr: byte, isr: byte): byte {
    if tpr / 16 >= isr / 16 then tpr else isr / 16 * 16
  }

  /** An interrupt is delivered only from a class above the processor priority's. */
  predicate Deliverable(irr: byte, priority: byte) {
    irr / 16 > priority / 16
  }

  function Max(a: byte, b: byte): byte {
    if a >= b then a else b
  }

  /** With its low half zero, comparing the whole in-service byte gives exactly the architectural priority. */
  lemma MaxIsPriority(tpr: byte, isr: byte)
    requires isr % 16 == 0
    ensures Max(tpr, isr) == ProcessorPriority(tpr, isr)
  {
  }

  /** Asking the hypervisor whenever the pending byte is larger misses nothing, and is in vain only within one class. */
  lemma PollMissesNothing(irr: byte, priority: byte)
    ensures Deliverable(irr, priority) ==> irr > priority
    ensures irr > priority && !Deliverable(irr, priority) ==> irr / 16 == priority / 16
  {
  }

  /** The hypervisor never touches the priority byte, and what it does to the others does not depend on it. */
  lemma {:induction false} ApplyCommutes(w: Word, tpr: byte, changes: seq<Change>)
    ensures Apply(w.(tpr := tpr), changes) == Apply(w, changes).(tpr := tpr)
    ensures Apply(w, changes).tpr == w.tpr
    decreases |changes|
  {
    if changes != [] {
      ApplyCommutes(w, tpr, changes[..|changes| - 1]);
    }
  }

  lemma {:induction false} ApplyKeepsFormat(w: Word, changes: seq<Change>)
    requires w.isr % 16 == 0
    ensures Apply(w, changes).isr % 16 == 0
    decreases |changes|
  {
    if changes != [] {
      ApplyKeepsFormat(w, changes[..|changes| - 1]);
    }
  }

  /** Whether the record is enabled after the changes. */
  function EnabledAfter(on: bool, changes: seq<Change>): bool
    decreases |changes|
  {
    if changes == [] then on
    else
      var c := changes[|changes| - 1];
      if c.Enable? then c.on else EnabledAfter(on, changes[..|changes| - 1])
  }

  /** A record with a hypervisor that has a finite number of changes to make, at moments of its own choosing. */
  class Record {
    var word: Word
    var enabled: bool
    var realTpr: uint32
    /** The hypervisor's changes, and how many have been made. */
    const script: seq<Change>
    var made: nat
    ghost const first: Word
    ghost const firstEnabled: bool
    /** The priority byte last written by the guest. */
    ghost var last: byte

    /**
     * Nothing is lost: the word is what all changes made so far, and the last priority written, make of
     * the first word.
     */
    ghost predicate Valid()
      reads this
    {
      made <= |script| && first.isr % 16 == 0 &&
      word == Apply(first, script[..made]).(tpr := last) && enabled == EnabledAfter(firstEnabled, script[..made])
    }

    constructor (word: Word, enabled: bool, realTpr: uint32, script: seq<Change>)
      requires word.isr % 16 == 0
      ensures Valid() && this.word == word && this.made == 0 && this.script == script
    {
      this.word, this.enabled, this.realTpr, this.script := word, enabled, realTpr, script;
      made := 0;
      first := word;
      firstEnabled := enabled;
      last := word.tpr;
    }

    /** The hypervisor makes some of its changes, or none. */
    method Interfere()
      requires Valid()
      modifies `word, `enabled, `made
      ensures Valid() && old(made) <= made
      ensures made == old(made) ==> word == old(word) && enabled == old(enabled)
    {
      var n :| made <= n <= |script|;
      while made < n
        invariant Valid() && old(made) <= made <= n
        invariant made == old(made) ==> word == old(word) && enabled == old(enabled)
      {
        var c := script[made];
        assert script[..made + 1][..made] == script[..made];
        word := ApplyOne(word, c);
        if c.Enable? {
          enabled := c.on;
        }
        made := made + 1;
      }
    }

    /**
     * Set the priority to the low byte of `value`.  The update happens at one moment, `at` changes
     * into the script: only the priority byte is replaced, so no change of the hypervisor is lost,
     * and the hypervisor is asked to poll exactly when the byte pending at that moment is above the
     * processor priority.  On a multiprocessor the record is left alone exactly when it is found not
     * enabled.  The loop ends because each failed attempt has met a change.
     */
    method SetTpr(value: uint32, multiprocessor: bool) returns (swapped: bool, poll: bool, ghost at: nat)
      requires Valid()
      modifies this
      ensures Valid() && old(made) <= at <= made
      ensures multiprocessor || swapped
      ensures swapped ==> last == value % 256 && word.tpr == last && realTpr == old(realTpr)
      ensures swapped ==>
        var w := Apply(first, script[..at]);
        poll == (w.irr > ProcessorPriority(value % 256, w.isr))
      ensures !swapped ==>
        last == old(last) && realTpr == value && !poll && !EnabledAfter(firstEnabled, script[..at])
      ensures swapped && multiprocessor ==> exists k :: old(made) <= k <= at && EnabledAfter(firstEnabled, script[..k])
    {
      var tpr: byte := value % 256;
      var new' := word;
      while true
        invariant Valid() && old(made) <= made && last == old(last) && realTpr == old(realTpr)
        decreases |script| - made
      {
        Interfere();
        if multiprocessor && !enabled {
          realTpr := value;
          return false, false, made;
        }
        ghost var tested := made;
        assert multiprocessor ==> EnabledAfter(firstEnabled, script[..tested]);
        Interfere();
        var seen := word;
        ghost var before := made;
        new' := seen.(tpr := tpr);
        Interfere();
        // compare and swap, in one go
        if word == seen {
          word := new';
          last := tpr;
          at := made;
          break;
        }
        assert made > before;
      }
      swapped := true;
      ApplyKeepsFormat(first, script[..at]);
      var low := new'.tpr;
      if low < new'.isr {
        low := new'.isr;
      }
      MaxIsPriority(tpr, new'.isr);
      // rotate left by 8: the pending byte comes lowest, the priority second
      var rotated := Word(new'.irr, low, new'.isr, new'.zero);
      poll := rotated.tpr > rotated.isr;
      Interfere();
    }

    /**
     * Reading gives back the byte last set, whatever the hypervisor does to the other bytes meanwhile; on
     * a multiprocessor only if the record is found enabled, at the moment `at` of the hypervisor's script.
     */
    method GetTpr(multiprocessor: bool) returns (value: uint32, ghost at: nat)
      requires Valid()
      modifies `word, `enabled, `made
      ensures Valid() && old(made) <= at <= made
      ensures value == if multiprocessor && !EnabledAfter(firstEnabled, script[..at]) then realTpr else last as int
    {
      Interfere();
      at := made;
      var on := enabled;
      Interfere();
      if multiprocessor && !on {
        value := realTpr;
      } else {
        value := word.tpr;
      }
    }
  }
}
