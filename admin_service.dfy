/** AdminService: lookups and single-field profile updates, each validated before the lookup. */
module AdminServices {
  import opened Wrappers
  import opened Domain
  import opened Repositories

  class AdminService {
    const repo: Repository<Admin>

    constructor (repo: Repository<Admin>)
      requires forall id :: id in repo.records ==> repo.records[id].adminId == id
      ensures this.repo == repo
      ensures Valid()
    {
      this.repo := repo;
    }

    /** Every admin is stored under its own id. */
    ghost predicate Valid()
      reads repo
    {
      forall id :: id in repo.records ==> repo.records[id].adminId == id
    }

    /** GetAdminById: the stored admin, or NoSuchAdmin. */
    method GetAdminById(adminId: int) returns (result: Result<Admin>)
      ensures result.Ok? <==> adminId in repo.records
      ensures result.Ok? ==> result.value == repo.records[adminId]
      ensures result.Err? ==> result.error == NoSuchAdmin
    {
      var found := repo.GetAsyncById(adminId);
      if found.None? {
        return Err(NoSuchAdmin);
      }
      return Ok(found.value);
    }

    /** UpdateAdminEmail: a null or empty email is rejected before any lookup. */
    method UpdateAdminEmail(adminId: int, email: NString) returns (result: Result<Admin>)
      requires Valid()
      modifies repo
      ensures Valid()
      ensures IsNullOrEmpty(email) ==> result == Err(InvalidArgument("email"))
      ensures !IsNullOrEmpty(email) && adminId !in old(repo.records) ==> result == Err(NoSuchAdmin)
      ensures !IsNullOrEmpty(email) && adminId in old(repo.records) ==>
                result == Ok(old(repo.records)[adminId].(email := email))
      ensures result.Ok? ==> result.value.adminId == adminId &&
                             repo.records == old(repo.records)[adminId := result.value] &&
                             repo.updateLog == old(repo.updateLog) + [result.value]
      ensures result.Err? ==> repo.records == old(repo.records) && repo.updateLog == old(repo.updateLog)
    {
      if IsNullOrEmpty(email) {
        return Err(InvalidArgument("email"));
      }
      var adminToUpdate := repo.GetAsyncById(adminId);
      if adminToUpdate.None? {
        return Err(NoSuchAdmin);
      }
      var admin := adminToUpdate.value.(email := email);
      var _ := repo.Update(adminId, admin);
      return Ok(admin);
    }

    /** UpdateAdminPassword: a null or zero-length password is rejected before any lookup. */
    method UpdateAdminPassword(adminId: int, password: Option<Bytes>) returns (result: Result<Admin>)
      requires Valid()
      modifies repo
      ensures Valid()
      ensures password.None? || |password.value| == 0 ==> result == Err(InvalidArgument("password"))
      ensures password.Some? && |password.value| > 0 && adminId !in old(repo.records) ==> result == Err(NoSuchAdmin)
      ensures password.Some? && |password.value| > 0 && adminId in old(repo.records) ==>
                result == Ok(old(repo.records)[adminId].(password := password))
      ensures result.Ok? ==> result.value.adminId == adminId &&
                             repo.records == old(repo.records)[adminId := result.value] &&
                             repo.updateLog == old(repo.updateLog) + [result.value]
      ensures result.Err? ==> repo.records == old(repo.records) && repo.updateLog == old(repo.updateLog)
    {
      if password.None? || |password.value| == 0 {
        return Err(InvalidArgument("password"));
      }
      var adminToUpdate := repo.GetAsyncById(adminId);
      if adminToUpdate.None? {
        return Err(NoSuchAdmin);
      }
      var admin := adminToUpdate.value.(password := password);
      var _ := repo.Update(adminId, admin);
      return Ok(admin);
    }

    /** UpdateAdminPhoneNumber: a null or empty number is rejected before any lookup. */
    method UpdateAdminPhoneNumber(adminId: int, phoneNumber: NString) returns (result: Result<Admin>)
      requires Valid()
      modifies repo
      ensures Valid()
      ensures IsNullOrEmpty(phoneNumber) ==> result == Err(InvalidArgument("phoneNumber"))
      ensures !IsNullOrEmpty(phoneNumber) && adminId !in old(repo.records) ==> result == Err(NoSuchAdmin)
      ensures !IsNullOrEmpty(phoneNumber) && adminId in old(repo.records) ==>
                result == Ok(old(repo.records)[adminId].(phoneNumber := phoneNumber))
      ensures result.Ok? ==> result.value.adminId == adminId &&
                             repo.records == old(repo.records)[adminId := result.value] &&
                             repo.updateLog == old(repo.updateLog) + [result.value]
      ensures result.Err? ==> repo.records == old(repo.records) && repo.updateLog == old(repo.updateLog)
    {
      if IsNullOrEmpty(phoneNumber) {
        return Err(InvalidArgument("phoneNumber"));
      }
      var adminToUpdate := repo.GetAsyncById(adminId);
      if adminToUpdate.None? {
        return Err(NoSuchAdmin);
      }
      var admin := adminToUpdate.value.(phoneNumber := phoneNumber);
      var _ := repo.Update(adminId, admin);
      return Ok(admin);
    }

    /** UpdateAdminUserName: an invalid name is rejected even when the admin does not exist. */
    method UpdateAdminUserName(adminId: int, username: NString) returns (result: Result<Admin>)
      requires Valid()
      modifies repo
      ensures Valid()
      ensures IsNullOrEmpty(username) ==> result == Err(InvalidArgument("username"))
      ensures !IsNullOrEmpty(username) && adminId !in old(repo.records) ==> result == Err(NoSuchAdmin)
      ensures !IsNullOrEmpty(username) && adminId in old(repo.records) ==>
                result == Ok(old(repo.records)[adminId].(username := username))
      ensures result.Ok? ==> result.value.adminId == adminId &&
                             repo.records == old(repo.records)[adminId := result.value] &&
                             repo.updateLog == old(repo.updateLog) + [result.value]
      ensures result.Err? ==> repo.records == old(repo.records) && repo.updateLog == old(repo.updateLog)
    {
      if IsNullOrEmpty(username) {
        return Err(InvalidArgument("username"));
      }
      var adminToUpdate := repo.GetAsyncById(adminId);
      if adminToUpdate.None? {
        return Err(NoSuchAdmin);
      }
      var admin := adminToUpdate.value.(username := username);
      var _ := repo.Update(adminId, admin);
      return Ok(admin);
    }
  }
}
