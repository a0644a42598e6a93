/**
 * The state each form page keeps (its field values and its error messages),
 * the submit and edit handlers that replace it, and the confirmation text a
 * successful submit shows.
 */
module Forms {
  import opened Wrappers
  import opened Text
  import opened Numbers
  import opened Pets
  import opened Validation

  /** The values a form starts with, and returns to after a successful
      submit: every field empty, except the release form's pet type, which
      starts on "dog". */
  function InitialData(kind: FormKind): (d: map<Field, string>)
    ensures d.Keys == FieldSet(kind)
    ensures forall f | f in d :: d[f] == if f == PetType then "dog" else ""
  {
    map f | f in FieldSet(kind) :: if f == PetType then "dog" else ""
  }

  // ---------------------------------------------------------------------------
  // Confirmation messages

  const REGISTER_THANKS := "Thank you for registering! Our team will contact you soon."
  const RELEASE_THANKS := "Thank you for your submission. Our team will contact you to arrange the pet handover."
  const CONTACT_THANKS := "Thank you for contacting us! We will respond to your inquiry within 24 hours."
  const ADOPT_THANKS_BEFORE := "Thank you for your adoption request for "
  const ADOPT_THANKS_AFTER := "! Our team will contact you for an interview."
  const ANY_PET := "a pet"

  /** `pets.find(p => p.id === parseInt(petId))?.name || 'a pet'`: the name of
      the first pet whose id the selector's text starts with; "a pet" when the
      text holds no number, no pet carries it, or the pet's name is empty. */
  function AdoptedPetName(pets: seq<Pet>, petId: string): (name: string)
    ensures name != ""
  {
    match ParseIntPrefix(petId)
    case None => ANY_PET
    case Some(id) =>
      match FindPet(pets, id)
      case None => ANY_PET
      case Some(p) => if p.name == "" then ANY_PET else p.name
  }

  /** Choosing a pet in the selector (whose values are the pets' ids written
      in decimal) names that pet, provided no earlier pet shares its id. */
  lemma AdoptedPetNameOfChoice(pets: seq<Pet>, k: int)
    requires 0 <= k < |pets| && pets[k].name != ""
    requires forall j | 0 <= j < k :: pets[j].id != pets[k].id
    ensures AdoptedPetName(pets, IntToString(pets[k].id)) == pets[k].name
  {
    var id := pets[k].id;
    ParseIntPrefixReadsLeading(id, []);
    assert IntToString(id) + [] == IntToString(id);
    var r := FindPet(pets, id);
    var k' :| 0 <= k' < |pets| && pets[k'] == r.value && r.value.id == id
              && forall j | 0 <= j < k' :: pets[j].id != id;
    assert k' == k;
  }

  /** An id that no pet carries yields the fallback wording. */
  lemma AdoptedPetNameOfUnknownId(pets: seq<Pet>, id: int)
    requires forall k | 0 <= k < |pets| :: pets[k].id != id
    ensures AdoptedPetName(pets, IntToString(id)) == ANY_PET
  {
    ParseIntPrefixReadsLeading(id, []);
    assert IntToString(id) + [] == IntToString(id);
  }

  /** Text that does not start with a number yields the fallback wording. */
  lemma AdoptedPetNameOfNoNumber(pets: seq<Pet>, petId: string)
    requires ParseIntPrefix(petId).None?
    ensures AdoptedPetName(pets, petId) == ANY_PET
  {
  }

  /** The text a successful submit shows; the adoption form names the pet. */
  function Confirmation(kind: FormKind, pets: seq<Pet>, d: map<Field, string>): (msg: string)
    requires Complete(kind, d)
    ensures kind == Register ==> msg == REGISTER_THANKS
    ensures kind == Release ==> msg == RELEASE_THANKS
    ensures kind == Contact ==> msg == CONTACT_THANKS
    ensures kind == Adopt ==> msg == ADOPT_THANKS_BEFORE + AdoptedPetName(pets, d[PetId]) + ADOPT_THANKS_AFTER
  {
    match kind
    case Register => REGISTER_THANKS
    case Release => RELEASE_THANKS
    case Contact => CONTACT_THANKS
    case Adopt =>
      assert PetId in Fields(Adopt);
      ADOPT_THANKS_BEFORE + AdoptedPetName(pets, d[PetId]) + ADOPT_THANKS_AFTER
  }

  // ---------------------------------------------------------------------------
  // What a fresh form reports

  /** Every field but the release form's pet type has a check. */
  lemma EveryFieldButPetTypeChecked(kind: FormKind, f: Field)
    requires f in Fields(kind)
    ensures CheckOf(kind, f).Unchecked? <==> f == PetType
  {
  }

  /** Each check rejects the empty string. */
  lemma EmptyFailsEveryCheck(c: Check)
    requires !c.Unchecked?
    ensures Apply(c, "").Some?
  {
    assert IsBlank("");
  }

  /** Submitting a form as it starts reports every field except the pet
      type, whose default passes (it has no check). */
  lemma InitialDataFailsEverywhere(kind: FormKind)
    ensures Complete(kind, InitialData(kind))
    ensures Validate(kind, InitialData(kind)).Keys == FieldSet(kind) - {PetType}
  {
    var d := InitialData(kind);
    var e := Validate(kind, d);
    forall f | f in e ensures f in FieldSet(kind) - {PetType} {
      if f == PetType {
        PetTypeUnchecked(kind, d[f]);
      }
    }
    forall f | f in FieldSet(kind) - {PetType} ensures f in e {
      FreshFieldFails(kind, f);
    }
  }

  /** The pet type passes whatever it holds. */
  lemma PetTypeUnchecked(kind: FormKind, v: string)
    requires PetType in Fields(kind)
    ensures Rule(kind, PetType, v).None?
  {
  }

  /** An untouched registration form reports exactly its four fields. */
  lemma EmptyRegisterForm()
    ensures Complete(Register, InitialData(Register))
    ensures Validate(Register, InitialData(Register)).Keys == {Name, Email, Phone, Address}
  {
    InitialDataFailsEverywhere(Register);
    RegisterFields();
  }

  lemma RegisterFields()
    ensures FieldSet(Register) - {PetType} == {Name, Email, Phone, Address}
  {
    assert FieldSet(Register) == {Name, Email, Phone, Address};
  }

  /** A checked field of a fresh form fails its check. */
  lemma FreshFieldFails(kind: FormKind, f: Field)
    requires f in Fields(kind) && f != PetType
    ensures Rule(kind, f, InitialData(kind)[f]).Some?
  {
    EveryFieldButPetTypeChecked(kind, f);
    EmptyFailsEveryCheck(CheckOf(kind, f));
  }

  // ---------------------------------------------------------------------------
  // The form state

  /** One form page's state: the values typed so far and the messages shown
      under the fields. */
  class FormState {
    const kind: FormKind
    var formData: map<Field, string>
    var errors: map<Field, string>

    /** Every field of the form has a value; messages belong to its fields. */
    ghost predicate Valid()
      reads this
    {
      FieldSet(kind) <= formData.Keys && errors.Keys <= FieldSet(kind)
    }

    constructor (kind: FormKind)
      ensures Valid()
      ensures this.kind == kind && formData == InitialData(kind) && errors == map[]
    {
      this.kind := kind;
      formData := InitialData(kind);
      errors := map[];
    }

    /** `handleSubmit()`: with any error, the messages are replaced by the
        new ones and the values stay; with none, the confirmation is returned
        and both values and messages go back to the start. */
    method Submit(pets: seq<Pet>) returns (confirmation: Option<string>)
      requires Valid()
      modifies this
      ensures Valid()
      ensures confirmation.Some? <==> forall f | f in Fields(kind) :: Rule(kind, f, old(formData)[f]).None?
      ensures var e := Validate(kind, old(formData));
              if |e| > 0 then
                formData == old(formData) && errors == e && confirmation.None?
              else
                formData == InitialData(kind) && errors == map[]
                && confirmation == Some(Confirmation(kind, pets, old(formData)))
    {
      var newErrors := Validate(kind, formData);
      if |newErrors| > 0 {
        errors := newErrors;
        confirmation := None;
      } else {
        confirmation := Some(Confirmation(kind, pets, formData));
        formData := InitialData(kind);
        errors := map[];
      }
    }

    /** `handleChange(field, value)`: the field takes the value; a message
        showing under it is blanked; nothing else changes. */
    method Change(f: Field, v: string)
      requires Valid()
      modifies this
      ensures Valid()
      ensures formData == old(formData)[f := v]
      ensures errors == if f in old(errors) && old(errors)[f] != "" then old(errors)[f := ""] else old(errors)
    {
      formData := formData[f := v];
      if f in errors && errors[f] != "" {
        errors := errors[f := ""];
      }
    }
  }
}
