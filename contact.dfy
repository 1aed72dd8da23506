/** The contact modal: a trigger button that opens it, a three-field form
    whose inputs update one field each, and a submit button that clears
    the form and closes the modal. */
module Contact {

  import opened Wrappers

  /** The three inputs of the form. */
  datatype Field = Name | Email | Message

  /** The form state record. */
  datatype FormData = FormData(name: string, email: string, message: string)

  /** The form as it is on mount and after a submission. */
  const EmptyForm: FormData := FormData("", "", "")

  /** The name attribute of each input, which selects the key it writes. */
  function FieldName(f: Field): string {
    match f
    case Name => "name"
    case Email => "email"
    case Message => "message"
  }

  /** The input whose name attribute is s, if any. */
  function FieldNamed(s: string): (r: Option<Field>)
    ensures r.Some? ==> FieldName(r.value) == s
  {
    if s == "name" then Some(Name)
    else if s == "email" then Some(Email)
    else if s == "message" then Some(Message)
    else None
  }

  /** Each input has its own name: an input's name leads back to that input. */
  lemma FieldNameRoundTrip(f: Field)
    ensures FieldNamed(FieldName(f)) == Some(f)
  {
  }

  /** The value an input displays. */
  function Get(data: FormData, f: Field): string {
    match f
    case Name => data.name
    case Email => data.email
    case Message => data.message
  }

  /** The record copied with the key of input f replaced by value. */
  function WithField(data: FormData, f: Field, value: string): (r: FormData)
    ensures Get(r, f) == value
    ensures forall g :: g != f ==> Get(r, g) == Get(data, g)
  {
    match f
    case Name => data.(name := value)
    case Email => data.(email := value)
    case Message => data.(message := value)
  }

  /** A record is determined by what its three inputs display. */
  lemma {:induction false} FormDataExtensional(a: FormData, b: FormData)
    requires forall f :: Get(a, f) == Get(b, f)
    ensures a == b
  {
    assert Get(a, Name) == Get(b, Name);
    assert Get(a, Email) == Get(b, Email);
    assert Get(a, Message) == Get(b, Message);
  }

  /** Writing the same value to the same input twice is the same as once. */
  lemma WithFieldIdempotent(data: FormData, f: Field, value: string)
    ensures WithField(WithField(data, f, value), f, value) == WithField(data, f, value)
  {
    FormDataExtensional(WithField(WithField(data, f, value), f, value), WithField(data, f, value));
  }

  /** A later change of an input overrides an earlier one. */
  lemma WithFieldLastWins(data: FormData, f: Field, v1: string, v2: string)
    ensures WithField(WithField(data, f, v1), f, v2) == WithField(data, f, v2)
  {
    FormDataExtensional(WithField(WithField(data, f, v1), f, v2), WithField(data, f, v2));
  }

  /** Changes to two different inputs do not interfere. */
  lemma WithFieldCommutes(data: FormData, f: Field, v: string, g: Field, w: string)
    requires f != g
    ensures WithField(WithField(data, f, v), g, w) == WithField(WithField(data, g, w), f, v)
  {
    FormDataExtensional(WithField(WithField(data, f, v), g, w), WithField(WithField(data, g, w), f, v));
  }

  /** Writing the value an input already displays changes nothing. */
  lemma WithFieldCurrentValue(data: FormData, f: Field)
    ensures WithField(data, f, Get(data, f)) == data
  {
    FormDataExtensional(WithField(data, f, Get(data, f)), data);
  }

  class ContactModal {
    var isOpen: bool
    var formData: FormData

    constructor ()
      ensures !isOpen && formData == EmptyForm
      ensures forall f :: Get(formData, f) == ""
    {
      isOpen := false;
      formData := EmptyForm;
    }

    /** The trigger button. */
    method Open()
      modifies this
      ensures isOpen && formData == old(formData)
    {
      isOpen := true;
    }

    /** Closing without the animation library: the modal closes at once. */
    method CloseModal()
      modifies this
      ensures !isOpen && formData == old(formData)
    {
      isOpen := false;
    }

    /** An edit of input f: only that input's value changes. */
    method HandleChange(f: Field, value: string)
      modifies this
      ensures formData == WithField(old(formData), f, value)
      ensures Get(formData, f) == value
      ensures forall g :: g != f ==> Get(formData, g) == Get(old(formData), g)
      ensures isOpen == old(isOpen)
    {
      formData := WithField(formData, f, value);
    }

    /** The change event of the input whose name attribute is name: the
        name selects the input to update. A name that no input carries
        leaves the three modelled inputs as they were. */
    method HandleChangeByName(name: string, value: string)
      modifies this
      ensures FieldNamed(name).Some? ==> formData == WithField(old(formData), FieldNamed(name).value, value)
      ensures FieldNamed(name).None? ==> formData == old(formData)
      ensures isOpen == old(isOpen)
    {
      var f := FieldNamed(name);
      if f.Some? {
        HandleChange(f.value, value);
      }
    }

    /** The submit button: hands over the form as it was, clears every
        input and closes the modal. */
    method HandleSubmit() returns (submitted: FormData)
      modifies this
      ensures submitted == old(formData)
      ensures formData == EmptyForm && forall f :: Get(formData, f) == ""
      ensures !isOpen
    {
      submitted := formData;
      formData := EmptyForm;
      CloseModal();
    }
  }
}
