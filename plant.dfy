/**
 * The age clock of SOP_Plant: a plant is born at an ecosystem time, ages
 * at its species' growth rate from then on, and each cook sets its age,
 * clamped to the species' maximum. These are read from outside the plant and
 * are parameters here: the ecosystem's age (OBJ_Ecosystem::getAge), the
 * species' growth rate and its maximum age (getGrowthRate, getMaxAge).
 */
module PlantClock {
  import opened Options
  import opened Vectors

  /** The OBJ_Ecosystem a plant belongs to. */
  type EcosystemId = nat

  /** The PlantType a plant grows as. */
  type SpeciesId = nat

  /**
   * calcWeightedAge: the time since the birthday, scaled by the growth
   * rate. It is zero on the birthday, and with a non-negative rate it is
   * non-negative from the birthday on and never falls as time goes on.
   */
  function WeightedAge(ecoAge: real, birthday: real, growthRate: real): (w: real)
    ensures ecoAge == birthday ==> w == 0.0
    ensures growthRate >= 0.0 && ecoAge >= birthday ==> w >= 0.0
  {
    (ecoAge - birthday) * growthRate
  }

  /** With a non-negative growth rate the weighted age grows by the rate for every unit of time. */
  lemma WeightedAgeMonotone(e1: real, e2: real, birthday: real, growthRate: real)
    requires growthRate >= 0.0 && e1 <= e2
    ensures WeightedAge(e2, birthday, growthRate) - WeightedAge(e1, birthday, growthRate) == (e2 - e1) * growthRate
    ensures WeightedAge(e1, birthday, growthRate) <= WeightedAge(e2, birthday, growthRate)
  {
    assert (e2 - birthday) * growthRate - (e1 - birthday) * growthRate == (e2 - e1) * growthRate;
    assert (e2 - e1) * growthRate >= 0.0;
  }

  /**
   * The age a cook gives the plant: zero before the birthday, otherwise the
   * weighted age capped by the species' maximum age.
   */
  function CookedAge(ecoAge: real, birthday: real, growthRate: real, maxAge: real): (a: real)
    ensures ecoAge < birthday ==> a == 0.0
    ensures ecoAge >= birthday ==> a <= maxAge && a <= WeightedAge(ecoAge, birthday, growthRate)
    ensures ecoAge >= birthday ==> a == maxAge || a == WeightedAge(ecoAge, birthday, growthRate)
  {
    var w := WeightedAge(ecoAge, birthday, growthRate);
    if ecoAge < birthday then 0.0 else if w > maxAge then maxAge else w
  }

  /** With a non-negative rate and maximum the cooked age lies between zero and the maximum. */
  lemma CookedAgeBounds(ecoAge: real, birthday: real, growthRate: real, maxAge: real)
    requires growthRate >= 0.0 && maxAge >= 0.0
    ensures 0.0 <= CookedAge(ecoAge, birthday, growthRate, maxAge) <= maxAge
  {
    if ecoAge >= birthday {
      assert WeightedAge(ecoAge, birthday, growthRate) >= 0.0;
    }
  }

  /**
   * getChangeInAge, as written: meant to be called during a cook before the
   * age is updated, when `age` still holds the previous cook's value. It
   * gives the step to the new cooked age when the cap applies, and also in
   * the uncapped case when the growth rate is one.
   */
  function ChangeInAge(ecoAge: real, birthday: real, age: real, growthRate: real, maxAge: real): (c: real)
    ensures ecoAge >= birthday && WeightedAge(ecoAge, birthday, growthRate) > maxAge ==>
              age + c == CookedAge(ecoAge, birthday, growthRate, maxAge)
    ensures ecoAge >= birthday && growthRate == 1.0 ==> age + c == CookedAge(ecoAge, birthday, growthRate, maxAge)
  {
    if ecoAge < birthday then birthday - age
    else if WeightedAge(ecoAge, birthday, growthRate) > maxAge then maxAge - age
    else ecoAge - (age + birthday)
  }

  /**
   * Before the birthday the as-written change does not take the age to the
   * cooked age zero: a plant of age 2 born at time 5, at ecosystem time 3,
   * is told it grows by 3 while the cook sets its age back by 2.
   */
  lemma ChangeInAgeBeforeBirth()
    ensures ChangeInAge(3.0, 5.0, 2.0, 1.0, 10.0) == 3.0
    ensures CookedAge(3.0, 5.0, 1.0, 10.0) - 2.0 == -2.0
  {
  }

  /**
   * Below the cap the as-written change ignores the growth rate: a plant
   * born at 0 with age 0 and rate 2, at ecosystem time 1, is told it grows
   * by 1 while the cook ages it by 2.
   */
  lemma ChangeInAgeIgnoresRate()
    ensures ChangeInAge(1.0, 0.0, 0.0, 2.0, 10.0) == 1.0
    ensures CookedAge(1.0, 0.0, 2.0, 10.0) - 0.0 == 2.0
  {
  }

  /**
   * On every input before a birthday other than zero, the as-written change
   * misses the cooked age: it takes the age to the birthday instead of to zero.
   */
  lemma ChangeInAgeBeforeBirthAlwaysOff(ecoAge: real, birthday: real, age: real, growthRate: real, maxAge: real)
    requires ecoAge < birthday && birthday != 0.0
    ensures age + ChangeInAge(ecoAge, birthday, age, growthRate, maxAge) == birthday
    ensures age + ChangeInAge(ecoAge, birthday, age, growthRate, maxAge) != CookedAge(ecoAge, birthday, growthRate, maxAge)
  {
  }

  /**
   * On every uncapped input after the birthday with a rate other than one,
   * the as-written change misses the cooked age: it adds the elapsed time
   * rather than the weighted age.
   */
  lemma ChangeInAgeIgnoresRateAlwaysOff(ecoAge: real, birthday: real, age: real, growthRate: real, maxAge: real)
    requires ecoAge > birthday && growthRate != 1.0 && WeightedAge(ecoAge, birthday, growthRate) <= maxAge
    ensures age + ChangeInAge(ecoAge, birthday, age, growthRate, maxAge) == ecoAge - birthday
    ensures age + ChangeInAge(ecoAge, birthday, age, growthRate, maxAge) != CookedAge(ecoAge, birthday, growthRate, maxAge)
  {
    var t := ecoAge - birthday;
    var x := age + ChangeInAge(ecoAge, birthday, age, growthRate, maxAge);
    var y := CookedAge(ecoAge, birthday, growthRate, maxAge);
    assert x == t;
    assert y == t * growthRate;
    ProductNonZero(t, growthRate - 1.0);
    assert y - x == t * (growthRate - 1.0);
  }

  lemma ProductNonZero(t: real, u: real)
    requires t > 0.0 && u != 0.0
    ensures t * u != 0.0
  {
  }

    /** The change in age as the cook makes it: from the previous age to the new cooked age. */
  function IntendedChangeInAge(ecoAge: real, birthday: real, age: real, growthRate: real, maxAge: real): (c: real)
    ensures age + c == CookedAge(ecoAge, birthday, growthRate, maxAge)
  {
    var w := WeightedAge(ecoAge, birthday, growthRate);
    if ecoAge < birthday then -age else if w > maxAge then maxAge - age else w - age
  }

  /** The corrected change agrees with the as-written one wherever the latter is right. */
  lemma IntendedChangeAgrees(ecoAge: real, birthday: real, age: real, growthRate: real, maxAge: real)
    requires ecoAge >= birthday
    requires growthRate == 1.0 || WeightedAge(ecoAge, birthday, growthRate) > maxAge
    ensures IntendedChangeInAge(ecoAge, birthday, age, growthRate, maxAge)
              == ChangeInAge(ecoAge, birthday, age, growthRate, maxAge)
  {
    var c := ChangeInAge(ecoAge, birthday, age, growthRate, maxAge);
    assert age + c == CookedAge(ecoAge, birthday, growthRate, maxAge);
  }

  /** The state of an SOP_Plant that its age clock reads and writes. */
  class Plant {
    var plantAge: real
    var plantBirthday: real
    var ecosystem: Option<EcosystemId>
    var plantSpecies: Option<SpeciesId>
    /** The constructor does not set plantPos; whatever it holds is passed in as `pos`. */
    var plantPos: Vec3

    /** A new plant has age and birthday zero and no ecosystem or species. */
    constructor (pos: Vec3)
      ensures plantAge == 0.0 && plantBirthday == 0.0
      ensures ecosystem == None && plantSpecies == None && plantPos == pos
    {
      plantAge := 0.0;
      plantBirthday := 0.0;
      ecosystem := None;
      plantSpecies := None;
      plantPos := pos;
    }

    /**
     * initPlant(eco, currSpecies, worldTime): the plant is born now in `eco`;
     * the species is replaced only when one is given.
     */
    method InitPlant(eco: Option<EcosystemId>, species: Option<SpeciesId>, worldTime: real)
      modifies this
      ensures ecosystem == eco && plantBirthday == worldTime
      ensures plantSpecies == if species.Some? then species else old(plantSpecies)
      ensures plantAge == old(plantAge) && plantPos == old(plantPos)
    {
      ecosystem := eco;
      plantBirthday := worldTime;
      if species.Some? {
        plantSpecies := species;
      }
    }

    /** The age update of cookMySop: the weighted age, zeroed before the birthday and clamped to maxAge. */
    method CookAge(ecoAge: real, growthRate: real, maxAge: real)
      modifies this
      ensures plantAge == CookedAge(ecoAge, plantBirthday, growthRate, maxAge)
      ensures plantBirthday == old(plantBirthday) && plantPos == old(plantPos)
      ensures ecosystem == old(ecosystem) && plantSpecies == old(plantSpecies)
    {
      plantAge := WeightedAge(ecoAge, plantBirthday, growthRate);
      if ecoAge < plantBirthday {
        plantAge := 0.0;
      } else if plantAge > maxAge {
        plantAge := maxAge;
      }
    }

    method SetPosition(origin: Vec3)
      modifies this
      ensures GetPosition() == origin
      ensures plantAge == old(plantAge) && plantBirthday == old(plantBirthday)
      ensures ecosystem == old(ecosystem) && plantSpecies == old(plantSpecies)
    {
      plantPos := origin;
    }

    function GetPosition(): Vec3
      reads this
    {
      plantPos
    }

    function GetAge(): real
      reads this
    {
      plantAge
    }

    function GetBirthTime(): real
      reads this
    {
      plantBirthday
    }

    /** calcWeightedAge on this plant's birthday. */
    function CalcWeightedAge(ecoAge: real, growthRate: real): real
      reads this
    {
      WeightedAge(ecoAge, plantBirthday, growthRate)
    }

    /** getChangeInAge on this plant's birthday and current age, as written. */
    function GetChangeInAge(ecoAge: real, growthRate: real, maxAge: real): real
      reads this
    {
      ChangeInAge(ecoAge, plantBirthday, plantAge, growthRate, maxAge)
    }

    /** getChangeInAge on this plant's birthday and current age, as corrected. */
    function GetIntendedChangeInAge(ecoAge: real, growthRate: real, maxAge: real): real
      reads this
    {
      IntendedChangeInAge(ecoAge, plantBirthday, plantAge, growthRate, maxAge)
    }
  }

  /**
   * Asked during a cook before the age update, the corrected change is the
   * step the update then takes; the change as written is that step from the
   * birthday on when the cap applies or the rate is one, and never before a
   * birthday other than zero.
   */
  lemma CookStep(p: Plant, ecoAge: real, growthRate: real, maxAge: real)
    ensures p.GetAge() + p.GetIntendedChangeInAge(ecoAge, growthRate, maxAge)
              == CookedAge(ecoAge, p.GetBirthTime(), growthRate, maxAge)
    ensures ecoAge >= p.GetBirthTime() && (growthRate == 1.0 || p.CalcWeightedAge(ecoAge, growthRate) > maxAge) ==>
              p.GetChangeInAge(ecoAge, growthRate, maxAge) == p.GetIntendedChangeInAge(ecoAge, growthRate, maxAge)
    ensures ecoAge < p.GetBirthTime() && p.GetBirthTime() != 0.0 ==>
              p.GetAge() + p.GetChangeInAge(ecoAge, growthRate, maxAge)
                != CookedAge(ecoAge, p.GetBirthTime(), growthRate, maxAge)
  {
    if ecoAge >= p.GetBirthTime() && (growthRate == 1.0 || p.CalcWeightedAge(ecoAge, growthRate) > maxAge) {
      IntendedChangeAgrees(ecoAge, p.GetBirthTime(), p.GetAge(), growthRate, maxAge);
    }
    if ecoAge < p.GetBirthTime() && p.GetBirthTime() != 0.0 {
      ChangeInAgeBeforeBirthAlwaysOff(ecoAge, p.GetBirthTime(), p.GetAge(), growthRate, maxAge);
    }
  }
}
