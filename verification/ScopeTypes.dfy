/** Passports and scopes as the scope evaluator sees them (s1/scope-evaluator-runtime/src/types.rs). */
module ScopeTypes {

  datatype ScopeEntry = ScopeEntry(
    scopeId: string,
    actionClass: string,
    resourcePattern: string,
    contextConstraints: map<string, string>,
    expiresTs: int,
    isEscalation: bool)

  datatype Passport = Passport(passportId: string, passportType: string, expiresTs: int, scopes: seq<ScopeEntry>)
}
