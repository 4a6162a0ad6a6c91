/** The submit handler of a form marked `data-validate`: it checks the
    required fields, marks the failing ones with the error border, and
    never lets the browser submit. A valid form only shows "Sent!" on its
    submit control. */
module Form {
  import opened Text
  import opened Email

  /** A form control: whether it has the `required` attribute, its `type`
      property as the browser reports it, its current value, and whether it
      carries the red error border. */
  datatype Field = Field(required: bool, kind: string, value: string, errorMarked: bool)

  /** The form's submit control: its text and its `disabled` flag. */
  datatype SubmitButton = SubmitButton(text: string, disabled: bool)

  datatype FormState = FormState(fields: seq<Field>, submit: SubmitButton)

  /** What one submit event leaves behind: the form, whether it was judged
      valid, and whether the browser's default submission was prevented. */
  datatype Outcome = Outcome(form: FormState, valid: bool, defaultPrevented: bool)

  /** A required field passes when its trimmed value is not empty and, for
      an e-mail field, the trimmed value has the pattern's shape. */
  predicate Passes(f: Field)
  {
    var v := Trim(f.value);
    v != "" && (f.kind == "email" ==> PatternMatches(v))
  }

  /** The submit handler. The default action is prevented on both branches.
      The form is valid exactly when every required field passes; each
      required field's error border is set afresh from this pass alone, and
      fields that are not required are not looked at. A valid form's submit
      control reads "Sent!" and is disabled; an invalid form's is left as it
      was. */
  method OnSubmit(form: FormState) returns (out: Outcome)
    ensures out.defaultPrevented
    ensures out.valid <==> forall j :: 0 <= j < |form.fields| && form.fields[j].required ==> Passes(form.fields[j])
    ensures |out.form.fields| == |form.fields|
    ensures forall j :: 0 <= j < |form.fields| && form.fields[j].required ==>
              out.form.fields[j] == form.fields[j].(errorMarked := !Passes(form.fields[j]))
    ensures forall j :: 0 <= j < |form.fields| && !form.fields[j].required ==>
              out.form.fields[j] == form.fields[j]
    ensures out.valid ==> out.form.submit == SubmitButton("Sent!", true)
    ensures !out.valid ==> out.form.submit == form.submit
  {
    var valid := true;
    var fields := form.fields;
    for i := 0 to |fields|
      invariant |fields| == |form.fields|
      invariant valid <==> forall j :: 0 <= j < i && form.fields[j].required ==> Passes(form.fields[j])
      invariant forall j :: 0 <= j < i && form.fields[j].required ==>
                  fields[j] == form.fields[j].(errorMarked := !Passes(form.fields[j]))
      invariant forall j :: 0 <= j < i && !form.fields[j].required ==> fields[j] == form.fields[j]
      invariant fields[i..] == form.fields[i..]
    {
      var field := fields[i];
      assert field == form.fields[i] by {
        assert fields[i..][0] == form.fields[i..][0];
      }
      if field.required {
        var failed := CheckField(field);
        fields := fields[i := field.(errorMarked := failed)];
        if failed {
          valid := false;
        }
      }
      assert fields[i + 1..] == form.fields[i + 1..] by {
        assert fields[i + 1..] == fields[i..][1..];
      }
    }
    if valid {
      out := Outcome(FormState(fields, SubmitButton("Sent!", true)), true, true);
    } else {
      out := Outcome(FormState(fields, form.submit), false, true);
    }
  }

  /** The checks the handler runs on one required field: the border is
      cleared, then set again when the trimmed value is empty or, for an
      e-mail field, when the non-empty trimmed value fails the pattern. */
  method CheckField(field: Field) returns (failed: bool)
    ensures failed <==> !Passes(field)
  {
    failed := false;
    var v := Trim(field.value);
    if v == "" {
      failed := true;
    }
    if field.kind == "email" && v != "" {
      var ok := Test(v);
      if !ok {
        failed := true;
      }
    }
  }

  /** A required field passes exactly when its value is not all white
      space and, for an e-mail field, the trimmed value has no white space,
      one `@` with something before it, and a `.` inside the part after it. */
  lemma PassesIff(f: Field)
    ensures Passes(f) <==>
              && !AllWs(f.value)
              && (f.kind == "email" ==> LooseAddress(Trim(f.value)))
  {
    TrimEmptyIffAllWs(f.value);
    PatternIffLooseAddress(Trim(f.value));
  }
}
