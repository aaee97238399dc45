/** The fields of the registration form and the engine's entry point
    `valida`: it runs the field's own validator, then marks the field's
    container invalid or not and writes the selected error message. The CEP
    validator asks the ViaCEP service for the address and fills, or clears,
    the street, city and state fields; the service's answer is a parameter. */
module Form {
  import opened JsValues
  import opened Messages
  import Cpf
  import Age

  /** What the engine reads and writes of a form input and its container. */
  datatype FieldState = FieldState(
    value: string,
    disabled: bool,
    customMessage: string,       // the last argument of setCustomValidity
    containerInvalid: bool,      // 'input-container--invalido' on the parent
    message: MessageValue)       // the content of '.input-mensagem-erro'

  /** A form input: its `data-tipo` never changes, the rest does. */
  class Field {
    const tipo: FieldType
    var value: string
    var disabled: bool
    var customMessage: string
    var containerInvalid: bool
    var message: MessageValue

    constructor (tipo: FieldType, value: string)
      ensures this.tipo == tipo
      ensures State() == FieldState(value, false, "", false, Blank)
    {
      this.tipo := tipo;
      this.value := value;
      disabled := false;
      customMessage := "";
      containerInvalid := false;
      message := Blank;
    }

    function State(): FieldState
      reads this
    {
      FieldState(value, disabled, customMessage, containerInvalid, message)
    }

    /** `input.validity` for the flags the browser computed. */
    function ValidityWith(flags: Flags): Validity
      reads this
    {
      Validity(flags, customMessage)
    }

    /** `setCustomValidity(m)`: only the custom message changes. */
    method SetCustomValidity(m: string)
      modifies this
      ensures State() == old(State()).(customMessage := m)
    {
      customMessage := m;
    }
  }

  /** The street, city and state fields the CEP lookup fills; each is the
      field `document.querySelector` finds for its `data-tipo`. */
  datatype Dependents = Dependents(logradouro: Field, cidade: Field, estado: Field)
  {
    predicate Valid() {
      logradouro.tipo == Logradouro && cidade.tipo == Cidade && estado.tipo == Estado
    }

    function Repr(): set<Field> {
      {logradouro, cidade, estado}
    }
  }

  /** The parsed answer of the ViaCEP service: an `erro` object, or an
      address. */
  datatype CepResponse = NotFound | Found(logradouro: string, localidade: string, uf: string)

  /** The CEP field and its three dependents, seen together. */
  datatype CepForm = CepForm(cep: FieldState, logradouro: FieldState, cidade: FieldState, estado: FieldState)

  function CepFormOf(input: Field, d: Dependents): CepForm
    reads input, d.Repr()
  {
    CepForm(input.State(), d.logradouro.State(), d.cidade.State(), d.estado.State())
  }

  /** A dependent field after `limpaCamposComCEP`: empty, enabled, and no
      longer shown as invalid. */
  function Cleared(s: FieldState): FieldState {
    s.(value := "", disabled := false, containerInvalid := false, message := Blank)
  }

  /** A dependent field after `preencheCamposComCEP`: the service's value,
      disabled; its error display is left as it was. */
  function Filled(s: FieldState, v: string): FieldState {
    s.(value := v, disabled := true)
  }

  /** The effect of the service's answer on the CEP form. */
  function AfterResponse(f: CepForm, r: CepResponse): CepForm {
    match r
    case NotFound =>
      CepForm(f.cep.(customMessage := MensagemCepNaoEncontrado),
              Cleared(f.logradouro), Cleared(f.cidade), Cleared(f.estado))
    case Found(logradouro, localidade, uf) =>
      CepForm(f.cep.(customMessage := ""),
              Filled(f.logradouro, logradouro), Filled(f.cidade, localidade), Filled(f.estado, uf))
  }

  const ViaCepPrefix := "https://viacep.com.br/ws/"
  const ViaCepSuffix := "/json/"

  /** The address asked of the service for a CEP field's value. */
  function LookupUrl(value: string): string {
    ViaCepPrefix + StripNonDigits(value) + ViaCepSuffix
  }

  /** `validaCPF`: the CPF's custom error is set exactly when the digits of
      the value are not an accepted CPF. */
  method ValidaCpf(input: Field)
    modifies input
    ensures input.State() == old(input.State()).(customMessage :=
              if Cpf.CpfAccepted(StripNonDigits(old(input.value))) then "" else MensagemCpf)
  {
    var valido := Cpf.CpfValido(input.value);
    var mensagem := "";
    if !valido {
      mensagem := MensagemCpf;
    }
    input.SetCustomValidity(mensagem);
  }

  /** `validaDataNascimento`: `birth` is the value parsed as a date (`None`
      when it is not one) and `today` the current date. */
  method ValidaDataNascimento(input: Field, birth: Option<Age.CalendarDate>, today: Age.CalendarDate)
    modifies input
    ensures input.State() == old(input.State()).(customMessage :=
              if Age.MaiorQue18(birth, today) then "" else MensagemIdade)
  {
    var mensagem := "";
    if !Age.MaiorQue18(birth, today) {
      mensagem := MensagemIdade;
    }
    input.SetCustomValidity(mensagem);
  }

  /** `limpaCamposComCEP`. */
  method LimpaCamposComCep(d: Dependents)
    requires d.Valid()
    modifies d.Repr()
    ensures d.logradouro.State() == Cleared(old(d.logradouro.State()))
    ensures d.cidade.State() == Cleared(old(d.cidade.State()))
    ensures d.estado.State() == Cleared(old(d.estado.State()))
  {
    d.logradouro.value := "";
    d.logradouro.disabled := false;
    d.logradouro.containerInvalid := false;
    d.logradouro.message := Blank;

    d.cidade.value := "";
    d.cidade.disabled := false;
    d.cidade.containerInvalid := false;
    d.cidade.message := Blank;

    d.estado.value := "";
    d.estado.disabled := false;
    d.estado.containerInvalid := false;
    d.estado.message := Blank;
  }

  /** `preencheCamposComCEP`. */
  method PreencheCamposComCep(d: Dependents, logradouro: string, localidade: string, uf: string)
    requires d.Valid()
    modifies d.Repr()
    ensures d.logradouro.State() == Filled(old(d.logradouro.State()), logradouro)
    ensures d.cidade.State() == Filled(old(d.cidade.State()), localidade)
    ensures d.estado.State() == Filled(old(d.estado.State()), uf)
  {
    d.logradouro.value := logradouro;
    d.logradouro.disabled := true;
    d.cidade.value := localidade;
    d.cidade.disabled := true;
    d.estado.value := uf;
    d.estado.disabled := true;
  }

  /** The synchronous part of `recuperarCEP`: with the value neither missing
      nor malformed it issues the lookup, whose address it returns; otherwise
      it clears the dependents and issues nothing. The CEP's own custom
      error is left as it was. */
  method RecuperarCep(input: Field, flags: Flags, d: Dependents) returns (lookup: Option<string>)
    requires d.Valid()
    modifies d.Repr()
    ensures lookup == if !flags.patternMismatch && !flags.valueMissing then Some(LookupUrl(input.value)) else None
    ensures lookup.Some? ==> unchanged(d.Repr())
    ensures lookup.None? ==>
              d.logradouro.State() == Cleared(old(d.logradouro.State())) &&
              d.cidade.State() == Cleared(old(d.cidade.State())) &&
              d.estado.State() == Cleared(old(d.estado.State()))
  {
    var cep := StripNonDigits(input.value);
    var url := ViaCepPrefix + cep + ViaCepSuffix;
    if !flags.patternMismatch && !flags.valueMissing {
      lookup := Some(url);
    } else {
      LimpaCamposComCep(d);
      lookup := None;
    }
  }

  /** The callback that handles the service's answer: a missing address
      sets the CEP's custom error and clears the dependents, an address
      clears it and fills them. Nothing checks that the answer belongs to
      the latest lookup, and the CEP field is not validated again. */
  method ReceiveCepResponse(input: Field, r: CepResponse, d: Dependents)
    requires d.Valid() && input.tipo == Cep
    modifies input, d.Repr()
    ensures CepFormOf(input, d) == AfterResponse(old(CepFormOf(input, d)), r)
  {
    match r
    case NotFound =>
      input.SetCustomValidity(MensagemCepNaoEncontrado);
      LimpaCamposComCep(d);
    case Found(logradouro, localidade, uf) =>
      input.SetCustomValidity("");
      PreencheCamposComCep(d, logradouro, localidade, uf);
  }

  /** The custom message a field holds after its validator has run. */
  function CustomAfterValidator(
    t: FieldType, value: string, custom: string,
    birth: Option<Age.CalendarDate>, today: Age.CalendarDate): string
  {
    match Validadores(t)
    case Some(CheckAge) => if Age.MaiorQue18(birth, today) then "" else MensagemIdade
    case Some(CheckCpf) => if Cpf.CpfAccepted(StripNonDigits(value)) then "" else MensagemCpf
    case _ => custom
  }

  /** `valida(input)`. The browser's flags for the field's value, the value
      parsed as a date and today's date are parameters. It returns the
      lookup a CEP field issues, and whether the message lookup threw. */
  method Valida(
    input: Field, flags: Flags,
    birth: Option<Age.CalendarDate>, today: Age.CalendarDate, d: Dependents)
    returns (lookup: Option<string>, threw: bool)
    requires d.Valid()
    modifies input, if input.tipo == Cep then d.Repr() else {}
    ensures input.value == old(input.value) && input.disabled == old(input.disabled)
    ensures input.customMessage ==
              CustomAfterValidator(input.tipo, input.value, old(input.customMessage), birth, today)
    ensures input.containerInvalid <==> !input.ValidityWith(flags).Valid()
    ensures threw <==> Selected(input.tipo, input.ValidityWith(flags)) == TypeError
    ensures threw ==> input.message == old(input.message)
    ensures !threw ==>
              input.message == (if input.ValidityWith(flags).Valid() then Blank
                                else Selected(input.tipo, input.ValidityWith(flags)).m)
    ensures input.tipo != Cep ==> lookup.None?
    ensures input.tipo == Cep ==>
              lookup == if !flags.patternMismatch && !flags.valueMissing then Some(LookupUrl(input.value)) else None
    ensures input.tipo == Cep && lookup.Some? ==> unchanged(d.Repr())
    ensures input.tipo == Cep && lookup.None? ==>
              d.logradouro.State() == Cleared(old(d.logradouro.State())) &&
              d.cidade.State() == Cleared(old(d.cidade.State())) &&
              d.estado.State() == Cleared(old(d.estado.State()))
  {
    lookup := None;
    threw := false;
    match Validadores(input.tipo) {
      case Some(CheckAge) => ValidaDataNascimento(input, birth, today);
      case Some(CheckCpf) => ValidaCpf(input);
      case Some(LookUpCep) => lookup := RecuperarCep(input, flags, d);
      case None =>
    }

    var validity := input.ValidityWith(flags);
    if validity.Valid() {
      input.containerInvalid := false;
      input.message := Blank;
    } else {
      input.containerInvalid := true;
      var mensagem := MostraMensagemDeErro(input.tipo, validity);
      match mensagem {
        case TypeError => threw := true;
        case Message(m) => input.message := m;
      }
    }
  }

  /** Because the validator runs first and the last active flag wins, an
      empty CPF field shows "CPF not valid" and an empty or unparseable
      birth date shows the age message, never their "cannot be empty"
      messages. */
  lemma EmptyFieldShowsValidatorMessage(
    f: Flags, custom: string, birth: Option<Age.CalendarDate>, today: Age.CalendarDate)
    ensures Selected(Cpf, Validity(f, CustomAfterValidator(Cpf, "", custom, birth, today))) ==
            Message(Text(CpfInvalido))
    ensures Selected(DataNascimento, Validity(f, CustomAfterValidator(DataNascimento, "", custom, None, today))) ==
            Message(Text(IdadeInsuficiente))
  {
    assert !Cpf.CpfAccepted(StripNonDigits(""));
    assert MensagemCpf[0] == 'O';
    assert |MensagemIdade| > 0;
  }

  /** After a `NotFound` answer the CEP field is invalid, and validating it
      again would show the catalogue's "not found" message whatever its
      other flags; after an address its custom error is gone. */
  lemma ResponseDecidesCepError(f: CepForm, flags: Flags)
    ensures !Validity(flags, AfterResponse(f, NotFound).cep.customMessage).Valid()
    ensures Selected(Cep, Validity(flags, AfterResponse(f, NotFound).cep.customMessage)) ==
            Message(Text(CepNaoEncontrado))
    ensures forall r: CepResponse :: r.Found? ==> !Validity(flags, AfterResponse(f, r).cep.customMessage).CustomError()
  {
  }

  /** A dependent field emptied, enabled and no longer shown as invalid,
      its custom error kept. */
  predicate ShowsCleared(after: FieldState, before: FieldState) {
    after.value == "" && !after.disabled && !after.containerInvalid &&
    after.message == Blank && after.customMessage == before.customMessage
  }

  /** A dependent field holding `v` and disabled, its error display and
      custom error kept. */
  predicate ShowsFilled(after: FieldState, before: FieldState, v: string) {
    after.value == v && after.disabled &&
    after.containerInvalid == before.containerInvalid && after.message == before.message &&
    after.customMessage == before.customMessage
  }

  /** The answer only touches the CEP's custom error and the three
      dependents: an address puts its street, city and state into them and
      disables them, leaving their error display as it was; a missing
      address empties, enables and un-marks all three. */
  lemma ResponseFrame(f: CepForm, r: CepResponse)
    ensures AfterResponse(f, r).cep == f.cep.(customMessage := AfterResponse(f, r).cep.customMessage)
    ensures r.Found? ==>
              ShowsFilled(AfterResponse(f, r).logradouro, f.logradouro, r.logradouro) &&
              ShowsFilled(AfterResponse(f, r).cidade, f.cidade, r.localidade) &&
              ShowsFilled(AfterResponse(f, r).estado, f.estado, r.uf)
    ensures r.NotFound? ==>
              ShowsCleared(AfterResponse(f, r).logradouro, f.logradouro) &&
              ShowsCleared(AfterResponse(f, r).cidade, f.cidade) &&
              ShowsCleared(AfterResponse(f, r).estado, f.estado)
  {
  }

  /** Receiving the same answer twice is receiving it once. */
  lemma ResponseIdempotent(f: CepForm, r: CepResponse)
    ensures AfterResponse(AfterResponse(f, r), r) == AfterResponse(f, r)
  {
  }

  /** With no guard against stale answers, whichever answer arrives last
      decides the CEP's custom error and the dependents' values and whether
      they are enabled, whatever came before. */
  lemma LastResponseWins(f: CepForm, earlier: CepResponse, later: CepResponse)
    ensures var twice := AfterResponse(AfterResponse(f, earlier), later);
            var once := AfterResponse(f, later);
            twice.cep == once.cep &&
            twice.logradouro.value == once.logradouro.value &&
            twice.cidade.value == once.cidade.value &&
            twice.estado.value == once.estado.value &&
            twice.logradouro.disabled == once.logradouro.disabled &&
            twice.cidade.disabled == once.cidade.disabled &&
            twice.estado.disabled == once.estado.disabled
  {
  }

  /** The address names the CEP by its digits alone: two values give the same
      address exactly when they have the same digits. */
  lemma {:induction false} LookupUrlInjective(a: string, b: string)
    ensures LookupUrl(a) == LookupUrl(b) <==> StripNonDigits(a) == StripNonDigits(b)
  {
    if LookupUrl(a) == LookupUrl(b) {
      var x, y := StripNonDigits(a), StripNonDigits(b);
      assert |x| == |y|;
      var n := |ViaCepPrefix|;
      assert x == LookupUrl(a)[n..n + |x|];
      assert y == LookupUrl(b)[n..n + |y|];
    }
  }

  /** The digits of a CEP typed with its mask, "01001-000", address the
      same lookup as the bare digits. */
  lemma MaskedCepSameUrl(a: string, b: string)
    ensures LookupUrl(a + "-" + b) == LookupUrl(a + b)
  {
    StripConcat(a + "-", b);
    StripConcat(a, "-");
    StripConcat(a, b);
    assert StripNonDigits("-") == "";
  }
}
