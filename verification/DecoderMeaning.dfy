/**
 What an instruction word means for a machine and its encoding, read bit by bit and without the
 generated rules (tce/icdecoder_plugins/DefaultDecoderGenerator.cc).  The theorems about the
 decoder compare the rules with these definitions.
 */
module DecoderMeaning {
  import opened Wrappers
  import opened Powers
  import opened BitVectors
  import opened DecoderRules

  // ---------------------------------------------------------------------------------------
  // Fields
  // ---------------------------------------------------------------------------------------

  /** Bit k of a word, counted from the right. */
  predicate Bit(word: BitVector, k: nat) {
    k < |word| && word[|word| - 1 - k]
  }

  /** The number in bits pos to pos + width - 1. */
  function Field(word: BitVector, pos: nat, width: nat): nat {
    if width == 0 then 0 else Field(word, pos, width - 1) + if Bit(word, pos + width - 1) then Pow2(width - 1) else 0
  }

  /** The test of a code inside a field of the word. */
  predicate CodeAt(word: BitVector, field: Range, t: Test) {
    t.pos + t.width <= field.width && (t.width == 0 || Field(word, field.pos + t.pos, t.width) == t.code)
  }

  lemma {:induction false} LeadingBit(b: bool, rest: BitVector)
    ensures FromBits([b] + rest) == FromBits(rest) + if b then Pow2(|rest|) else 0
    decreases |rest|
  {
    var v := [b] + rest;
    if rest == [] {
      assert v[..0] == [];
    } else {
      var n := |rest| - 1;
      assert v[..n + 1] == [b] + rest[..n];
      LeadingBit(b, rest[..n]);
    }
  }

  lemma {:induction false} FieldOfSlice(v: BitVector, pos: nat, width: nat)
    requires pos + width <= |v|
    ensures FromBits(Slice(v, Range(pos, width))) == Field(v, pos, width)
    decreases width
  {
    if width > 0 {
      FieldOfSlice(v, pos, width - 1);
      var top := v[|v| - 1 - (pos + width - 1)];
      assert Slice(v, Range(pos, width)) == [top] + Slice(v, Range(pos, width - 1));
      LeadingBit(top, Slice(v, Range(pos, width - 1)));
    }
  }

  lemma BitOfSlice(v: BitVector, r: Range, k: nat)
    requires r.pos + r.width <= |v| && k < r.width
    ensures Bit(Slice(v, r), k) == Bit(v, r.pos + k)
  {
  }

  lemma {:induction false} FieldInSlice(v: BitVector, r: Range, pos: nat, width: nat)
    requires r.pos + r.width <= |v| && pos + width <= r.width
    ensures Field(Slice(v, r), pos, width) == Field(v, r.pos + pos, width)
    decreases width
  {
    if width > 0 {
      FieldInSlice(v, r, pos, width - 1);
      BitOfSlice(v, r, pos + width - 1);
      assert r.pos + (pos + width - 1) == r.pos + pos + width - 1;
    }
  }

  lemma CodeInSlice(v: BitVector, r: Range, t: Test)
    requires r.pos + r.width <= |v|
    ensures CodeAt(v, r, t) <==> TestFits(t, |Slice(v, r)|) && Holds(t, Slice(v, r))
  {
    if t.pos + t.width <= r.width {
      FieldOfSlice(Slice(v, r), t.pos, t.width);
      FieldInSlice(v, r, t.pos, t.width);
    }
  }

  // ---------------------------------------------------------------------------------------
  // Moves
  // ---------------------------------------------------------------------------------------

  /** The first choice with the selected code. */
  ghost predicate IsSelected(choices: seq<GuardChoice>, sel: nat, i: nat) {
    i < |choices| && choices[i].code == sel && forall j :: 0 <= j < i ==> choices[j].code != sel
  }

  /** The guard of this choice lets the move happen: its input is set, or clear if it is inverted. */
  predicate Lets(choice: GuardChoice, guards: seq<bool>) {
    match choice
    case NeverMove(_) => false
    case OnGuard(_, guard, inverted) => (guard < |guards| && guards[guard]) != inverted
  }

  /** The move of a slot happens unless the slot carries a long immediate or its guard forbids it. */
  ghost predicate Happens(m: Machine, env: Env, b: nat) {
    b < |m.buses| &&
    var squash := m.buses[b].squash;
    && Field(env.word, m.tag.pos, m.tag.width) !in squash.templates
    && (squash.guardField.Some? ==>
          var field := squash.guardField.value;
          forall i: nat :: IsSelected(squash.choices, Field(env.word, field.pos, field.width), i) ==> Lets(squash.choices[i], env.guards))
  }

  lemma {:induction false} GuardSquashMeans(choices: seq<GuardChoice>, sel: nat, guards: seq<bool>)
    ensures !GuardSquash(choices, sel, guards)
            <==> forall i: nat :: IsSelected(choices, sel, i) ==> Lets(choices[i], guards)
    decreases |choices|
  {
    if choices != [] {
      var rest := choices[1..];
      if choices[0].code == sel {
        assert IsSelected(choices, sel, 0);
      } else {
        GuardSquashMeans(rest, sel, guards);
        forall i: nat
          ensures IsSelected(choices, sel, i + 1) <==> IsSelected(rest, sel, i)
        {
          SelectedInRest(choices, sel, i);
        }
        forall i: nat | IsSelected(choices, sel, i)
          ensures i > 0 && IsSelected(rest, sel, i - 1) && rest[i - 1] == choices[i]
        {
          SelectedInRest(choices, sel, i - 1);
        }
        forall i: nat | IsSelected(rest, sel, i)
          ensures IsSelected(choices, sel, i + 1) && rest[i] == choices[i + 1]
        {
        }
      }
    }
  }

  lemma SelectedInRest(choices: seq<GuardChoice>, sel: nat, i: nat)
    requires choices != [] && choices[0].code != sel
    ensures IsSelected(choices, sel, i + 1) <==> IsSelected(choices[1..], sel, i)
  {
    var rest := choices[1..];
    assert forall j :: 0 <= j < |rest| ==> rest[j] == choices[j + 1];
    if IsSelected(rest, sel, i) {
      forall j | 0 <= j < i + 1
        ensures choices[j].code != sel
      {
        assert j > 0 ==> rest[j - 1] == choices[j];
      }
    }
  }

  lemma SquashMeans(m: Machine, env: Env, b: nat)
    requires ValidCycle(m, env) && b < |m.buses|
    ensures !IsSquashed(m, env, b) <==> Happens(m, env, b)
  {
    assert ValidBus(m, b);
    var squash := m.buses[b].squash;
    FieldOfSlice(env.word, m.tag.pos, m.tag.width);
    if squash.guardField.Some? {
      var r := squash.guardField.value;
      FieldOfSlice(env.word, r.pos, r.width);
      GuardSquashMeans(squash.choices, FromBits(Slice(env.word, r)), env.guards);
    }
  }

  ghost predicate DistinctChoices(choices: seq<GuardChoice>) {
    forall i, j :: 0 <= i < j < |choices| ==> choices[i].code != choices[j].code
  }

  /**
   With distinct codes: a slot without a template tag moves exactly if its guard field selects no
   choice, or a guard whose input differs from its inversion.
   */
  lemma HappensIff(m: Machine, env: Env, b: nat)
    requires b < |m.buses| && m.buses[b].squash.guardField.Some? && DistinctChoices(m.buses[b].squash.choices)
    requires Field(env.word, m.tag.pos, m.tag.width) !in m.buses[b].squash.templates
    requires forall c :: c in m.buses[b].squash.choices && c.OnGuard? ==> c.guard < |env.guards|
    ensures var choices, field := m.buses[b].squash.choices, m.buses[b].squash.guardField.value;
            var sel := Field(env.word, field.pos, field.width);
            Happens(m, env, b)
            <==> (forall i :: 0 <= i < |choices| ==> choices[i].code != sel)
                 || exists i :: 0 <= i < |choices| && choices[i].code == sel && choices[i].OnGuard?
                                && env.guards[choices[i].guard] != choices[i].inverted
  {
    var choices, field := m.buses[b].squash.choices, m.buses[b].squash.guardField.value;
    var sel := Field(env.word, field.pos, field.width);
    if i :| 0 <= i < |choices| && choices[i].code == sel {
      assert IsSelected(choices, sel, i);
      assert choices[i] in choices;
      forall k: nat | k < |choices| && choices[k].code == sel
        ensures k == i
      {
      }
    }
  }
}
