/** The eight profile fields of an instructor application, shared by the
    form of the front end (frontend/src/pages/InstructorRequestForm.jsx) and
    the back end (backend/controllers/instructorApplication.controller.js,
    backend/models/instructorApplication.model.js). */
module ApplicationFields {

  datatype Field =
    | Name | Email | Phone | ExpertiseArea | Experience | WhyTeach | Qualifications | Availability

  /** The fields in the order both ends check them. */
  const AllFields: seq<Field> :=
    [Name, Email, Phone, ExpertiseArea, Experience, WhyTeach, Qualifications, Availability]

  lemma AllFieldsListed(f: Field)
    ensures f in AllFields
  {
  }

  lemma AllFieldsComplete()
    ensures forall f :: f in AllFields
  {
    forall f ensures f in AllFields { AllFieldsListed(f); }
  }

  /** Position of a field in `AllFields`. */
  function FieldIndex(f: Field): (i: nat)
    ensures i < |AllFields| && AllFields[i] == f
  {
    match f
    case Name => 0
    case Email => 1
    case Phone => 2
    case ExpertiseArea => 3
    case Experience => 4
    case WhyTeach => 5
    case Qualifications => 6
    case Availability => 7
  }

  /** `FieldIndex` inverts indexing into `AllFields`. */
  lemma FieldIndexOfPosition(i: nat)
    requires i < |AllFields|
    ensures FieldIndex(AllFields[i]) == i
  {
    if i < 4 {
      assert i == 0 || i == 1 || i == 2 || i == 3;
    } else {
      assert i == 4 || i == 5 || i == 6 || i == 7;
    }
  }

  /** The JSON key of a field in a request body. */
  function FieldKey(f: Field): string
  {
    match f
    case Name => "name"
    case Email => "email"
    case Phone => "phone"
    case ExpertiseArea => "expertiseArea"
    case Experience => "experience"
    case WhyTeach => "whyTeach"
    case Qualifications => "qualifications"
    case Availability => "availability"
  }

  /** A record of one string per field. */
  datatype Profile = Profile(
    name: string, email: string, phone: string, expertiseArea: string,
    experience: string, whyTeach: string, qualifications: string, availability: string)
  {
    function Get(f: Field): string
    {
      match f
      case Name => name
      case Email => email
      case Phone => phone
      case ExpertiseArea => expertiseArea
      case Experience => experience
      case WhyTeach => whyTeach
      case Qualifications => qualifications
      case Availability => availability
    }

    /** `{ ...prev, [name]: value }` */
    function Set(f: Field, v: string): (d: Profile)
      ensures d.Get(f) == v
      ensures forall g :: g != f ==> d.Get(g) == Get(g)
    {
      match f
      case Name => this.(name := v)
      case Email => this.(email := v)
      case Phone => this.(phone := v)
      case ExpertiseArea => this.(expertiseArea := v)
      case Experience => this.(experience := v)
      case WhyTeach => this.(whyTeach := v)
      case Qualifications => this.(qualifications := v)
      case Availability => this.(availability := v)
    }
  }

  /** Two profiles with the same value in every field are equal. */
  lemma ProfileExtensionality(a: Profile, b: Profile)
    requires forall f :: a.Get(f) == b.Get(f)
    ensures a == b
  {
    assert a.Get(Name) == b.Get(Name) && a.Get(Email) == b.Get(Email);
    assert a.Get(Phone) == b.Get(Phone) && a.Get(ExpertiseArea) == b.Get(ExpertiseArea);
    assert a.Get(Experience) == b.Get(Experience) && a.Get(WhyTeach) == b.Get(WhyTeach);
    assert a.Get(Qualifications) == b.Get(Qualifications) && a.Get(Availability) == b.Get(Availability);
  }
}
